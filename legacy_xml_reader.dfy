/**
 * `entities::xml_reader::XMLReader`, the earlier XML reader: a byte reader
 * over the body text of an XML document that remembers the name of the
 * last element other than `<body>` opened, instead of keeping metadata.
 */
module LegacyXmlReading {
  import opened Wrappers
  import opened Utf8
  import opened CharBuffer
  import opened XmlEvents
  import opened XmlDocument

  const READ_ERROR_PREFIX := "Error while caching next XML content: "

  /** The parser state kept between calls: the next event, the open `<body>` count, the last tag met. */
  datatype Scanner = Scanner(pos: nat, body: int, currentTag: Option<seq<byte>>)

  datatype Scanned = Scanned(scanner: Scanner, chars: string, result: Result<(), string>)

  /**
   * `next_content` from `s` with `chars` cached so far: the events are read
   * until the first body text that is neither empty nor one space, the end
   * of the document or an error.
   */
  function Scan(events: seq<Event>, s: Scanner, chars: string): (r: Scanned)
    ensures r.scanner.pos >= s.pos
    ensures r.result.Ok? && r.chars == [] ==> EventAt(events, r.scanner.pos).Eof?
    decreases Remaining(events, s.pos)
  {
    var next := s.(pos := s.pos + 1);
    match EventAt(events, s.pos)
    case Error(m) => Scanned(next, chars, Err(m))
    case Eof => Scanned(s, chars, Ok(()))
    case Start(name) =>
      if name == BODY then Scan(events, next.(body := s.body + 1), chars)
      else Scan(events, next.(currentTag := Some(name)), chars)
    case End(name) =>
      if name == BODY then Scan(events, next.(body := s.body - 1), chars)
      else Scan(events, next, if s.body > 0 then chars + " " else chars)
    case Text(bytes) =>
      if s.body > 0 then
        if bytes == [] || bytes == [SPACE] then Scan(events, next, chars)
        else Scanned(next, chars + ByteChars(bytes), Ok(()))
      else Scan(events, next, chars)
    case Other => Scan(events, next, chars)
  }

  /**
   * Each call caches a piece of the document's text: an error ends it, an
   * empty piece is the end of the document, otherwise the chars cached are
   * the start of what is left.
   */
  lemma {:induction false} ScanMatchesDocument(events: seq<Event>, s: Scanner, p: nat)
    ensures var r := Scan(events, s, Spaces(p));
            var d := Document(events, s.pos, s.body, p, Legacy);
            var rest := Document(events, r.scanner.pos, r.scanner.body, 0, Legacy);
            && (r.result.Err? ==> d == ("", Failed(r.result.error)))
            && (r.result.Ok? ==> d == (r.chars + rest.0, rest.1))
            && (r.result.Ok? && r.chars == [] ==> d == ("", Finished))
    decreases Remaining(events, s.pos)
  {
    var next := s.(pos := s.pos + 1);
    match EventAt(events, s.pos)
    case Error(m) =>
    case Eof =>
      assert Document(events, s.pos, s.body, 0, Legacy) == ("", Finished);
      assert Spaces(p) + "" == Spaces(p);
    case Start(name) =>
      if name == BODY {
        ScanMatchesDocument(events, next.(body := s.body + 1), p);
      } else {
        ScanMatchesDocument(events, next.(currentTag := Some(name)), p);
      }
    case End(name) =>
      if name == BODY {
        ScanMatchesDocument(events, next.(body := s.body - 1), p);
      } else if s.body > 0 {
        assert Spaces(p) + " " == Spaces(p + 1);
        ScanMatchesDocument(events, next, p + 1);
      } else {
        ScanMatchesDocument(events, next, p);
      }
    case Text(bytes) =>
      if s.body <= 0 || bytes == [] || bytes == [SPACE] {
        ScanMatchesDocument(events, next, p);
      }
    case Other =>
      ScanMatchesDocument(events, next, p);
  }

  /** The name of the last element other than `<body>` opened among the first `n` events. */
  ghost function LastTag(events: seq<Event>, n: nat): Option<seq<byte>>
    decreases n
  {
    if n == 0 then None
    else match EventAt(events, n - 1)
      case Start(name) => if name != BODY then Some(name) else LastTag(events, n - 1)
      case _ => LastTag(events, n - 1)
  }

  /** `LastTag` names a non-body opening event, and no later one comes before `n`. */
  lemma {:induction false} LastTagIsLast(events: seq<Event>, n: nat)
    ensures LastTag(events, n).Some? ==>
              exists i :: 0 <= i < n && EventAt(events, i) == Start(LastTag(events, n).value)
                          && LastTag(events, n).value != BODY && NoTagBetween(events, i + 1, n)
    ensures LastTag(events, n).None? ==> NoTagBetween(events, 0, n)
    decreases n
  {
    if n > 0 {
      LastTagIsLast(events, n - 1);
      var e := EventAt(events, n - 1);
      if e.Start? && e.name != BODY {
        assert NoTagBetween(events, n, n);
      } else if LastTag(events, n - 1).Some? {
        var i :| 0 <= i < n - 1 && EventAt(events, i) == Start(LastTag(events, n - 1).value)
                 && LastTag(events, n - 1).value != BODY && NoTagBetween(events, i + 1, n - 1);
        assert NoTagBetween(events, i + 1, n);
      }
    }
  }

  /** No element other than `<body>` is opened by the events from `lo` up to `hi`. */
  ghost predicate NoTagBetween(events: seq<Event>, lo: nat, hi: nat)
  {
    forall j :: lo <= j < hi ==> !EventAt(events, j).Start? || EventAt(events, j).name == BODY
  }

  /** `next_content` keeps the tag it remembers equal to the last element opened. */
  lemma {:induction false} ScanKeepsLastTag(events: seq<Event>, s: Scanner, chars: string)
    requires s.currentTag == LastTag(events, s.pos)
    ensures Scan(events, s, chars).scanner.currentTag == LastTag(events, Scan(events, s, chars).scanner.pos)
    decreases Remaining(events, s.pos)
  {
    var next := s.(pos := s.pos + 1);
    assert LastTag(events, s.pos + 1) == if EventAt(events, s.pos).Start? && EventAt(events, s.pos).name != BODY
                                         then Some(EventAt(events, s.pos).name) else LastTag(events, s.pos);
    match EventAt(events, s.pos)
    case Error(m) =>
    case Eof =>
    case Start(name) =>
      if name == BODY {
        ScanKeepsLastTag(events, next.(body := s.body + 1), chars);
      } else {
        ScanKeepsLastTag(events, next.(currentTag := Some(name)), chars);
      }
    case End(name) =>
      if name == BODY {
        ScanKeepsLastTag(events, next.(body := s.body - 1), chars);
      } else {
        ScanKeepsLastTag(events, next, if s.body > 0 then chars + " " else chars);
      }
    case Text(bytes) =>
      if s.body <= 0 || bytes == [] || bytes == [SPACE] {
        ScanKeepsLastTag(events, next, chars);
      }
    case Other =>
      ScanKeepsLastTag(events, next, chars);
  }

  /** What `current_read_meta` renders as text: the wrapped reader's meta and the last tag met. */
  datatype ReadMeta = ReadMeta(source: Option<string>, currentTag: Option<seq<byte>>)

  class LegacyXmlReader {
    const events: seq<Event>
    var pos: nat
    var insideBody: int
    var currentTag: Option<seq<byte>>
    var chars: string
    var index: nat
    /** The chars handed out so far. */
    ghost var read: string
    /** Whether the document's text ran out: an error, or nothing left to cache. */
    ghost var stopped: bool

    function State(): Scanner
      reads this
    {
      Scanner(pos, insideBody, currentTag)
    }

    ghost predicate Valid()
      reads this
    {
      && index <= |chars|
      && currentTag == LastTag(events, pos)
      && (!stopped ==>
            && read + chars[index..] + Document(events, pos, insideBody, 0, Legacy).0
               == Document(events, 0, 0, 0, Legacy).0
            && Document(events, pos, insideBody, 0, Legacy).1 == Document(events, 0, 0, 0, Legacy).1)
    }

    /** `build_from_reader`: no tag met, nothing cached, outside any element. */
    constructor BuildFromReader(events: seq<Event>)
      ensures Valid() && this.events == events && !stopped && read == ""
      ensures State() == Scanner(0, 0, None) && chars == "" && index == 0
    {
      this.events := events;
      pos, insideBody, currentTag := 0, 0, None;
      chars, index := "", 0;
      read, stopped := "", false;
    }

    /** `next_content`: clears the cache, then reads events as `Scan` says. */
    method NextContent() returns (r: Result<(), string>)
      modifies this
      ensures var s := Scan(events, old(State()), "");
              State() == s.scanner && chars == s.chars && index == 0 && r == s.result
      ensures read == old(read) && stopped == old(stopped)
    {
      chars := [];
      index := 0;
      while true
        invariant Scan(events, old(State()), "") == Scan(events, State(), chars)
        invariant index == 0 && read == old(read) && stopped == old(stopped)
        decreases Remaining(events, pos)
      {
        var e := EventAt(events, pos);
        if e.Error? {
          pos := pos + 1;
          return Err(e.message);
        } else if e.Eof? {
          break;
        }
        pos := pos + 1;
        if e.Start? {
          if e.name == BODY {
            insideBody := insideBody + 1;
          } else {
            currentTag := Some(e.name);
          }
        } else if e.End? {
          if e.name == BODY {
            insideBody := insideBody - 1;
          } else if insideBody > 0 {
            chars := chars + " ";
          }
        } else if e.Text? && insideBody > 0 {
          var next := ByteChars(e.content);
          if |next| == 0 || (|next| < 2 && next[0] == ' ') {
            assert e.content == [] || e.content == [SPACE];
            continue;
          }
          assert e.content != [] && e.content != [SPACE];
          chars := chars + next;
          break;
        }
      }
      return Ok(());
    }

    /**
     * `read`: when the cache is used up, caches the next content (an error
     * becomes `InvalidData`); then copies whole chars into `buf`. Once the
     * text runs out, the chars handed out are the document's whole text.
     */
    method Read(buf: array<byte>) returns (r: Result<nat, ReadError>)
      requires Valid()
      modifies this, buf
      ensures Valid()
      ensures |old(read)| <= |read| && read[..|old(read)|] == old(read)
      ensures r.Ok? ==> r.value <= buf.Length && buf[..r.value] == EncodeAll(read[|old(read)|..])
                        && buf[r.value..] == old(buf[r.value..])
      ensures old(index) < |old(chars)| ==> r.Ok? && State() == old(State()) && chars == old(chars)
                                            && stopped == old(stopped)
      ensures old(index) >= |old(chars)| ==>
                var s := Scan(events, old(State()), "");
                && State() == s.scanner && chars == s.chars
                && (s.result.Err? ==> r == Err(InvalidData(READ_ERROR_PREFIX + s.result.error)))
                && (s.result.Ok? ==> r.Ok? && (s.chars == [] ==> r.value == 0))
                && stopped == (old(stopped) || s.result.Err? || s.chars == [])
      ensures !old(stopped) && stopped ==>
                && read == Document(events, 0, 0, 0, Legacy).0
                && (r.Err? <==> Document(events, 0, 0, 0, Legacy).1.Failed?)
      ensures buf.Length >= 4 && r == Ok(0) ==> stopped
    {
      if index >= |chars| {
        var result := CacheNext();
        if result.Err? {
          return Err(InvalidData(READ_ERROR_PREFIX + result.error));
        }
      }
      var n := CopyOut(buf);
      return Ok(n);
    }

    /**
     * The first half of `read`: once the cache is used up, `next_content`;
     * the text runs out on an error or when nothing is left to cache.
     */
    method CacheNext() returns (r: Result<(), string>)
      requires Valid() && index >= |chars|
      modifies this
      ensures Valid()
      ensures var s := Scan(events, old(State()), "");
              State() == s.scanner && chars == s.chars && index == 0 && r == s.result
      ensures read == old(read) && stopped == (old(stopped) || r.Err? || chars == [])
      ensures !old(stopped) && stopped ==>
                && read == Document(events, 0, 0, 0, Legacy).0
                && (r.Err? <==> Document(events, 0, 0, 0, Legacy).1.Failed?)
    {
      ghost var before := State();
      ScanMatchesDocument(events, before, 0);
      ScanKeepsLastTag(events, before, "");
      r := NextContent();
      if r.Err? {
        stopped := true;
        return;
      }
      if !stopped {
        Continued(read, Document(events, before.pos, before.body, 0, Legacy).0, chars,
                  Document(events, pos, insideBody, 0, Legacy).0, Document(events, 0, 0, 0, Legacy).0);
      }
      if chars == [] {
        stopped := true;
      }
    }

    /** The second half of `read`: the fill loop, copying whole chars from the cache into `buf`. */
    method CopyOut(buf: array<byte>) returns (n: nat)
      requires Valid()
      modifies this`index, this`read, buf
      ensures Valid()
      ensures old(index) <= index <= |chars| && read == old(read) + chars[old(index)..index]
      ensures n <= buf.Length && buf[..n] == EncodeAll(chars[old(index)..index]) && buf[n..] == old(buf[n..])
      ensures buf.Length >= 4 && old(index) < |chars| ==> old(index) < index
    {
      var start := index;
      n, index := Fill(chars, index, buf);
      Consumed(read, chars, start, index, Document(events, pos, insideBody, 0, Legacy).0);
      read := read + chars[start..index];
      if buf.Length >= 4 && start < |chars| {
        FourBytesFitAnyChar(chars, start, index, n, buf.Length);
      }
    }

    /** `current_read_meta`: the wrapped reader's meta and the last tag met, before their rendering as text. */
    function CurrentReadMeta(sourceMeta: Option<string>): (r: ReadMeta)
      requires Valid()
      reads this
      ensures r.source == sourceMeta && r.currentTag == LastTag(events, pos)
    {
      ReadMeta(sourceMeta, currentTag)
    }
  }
}
