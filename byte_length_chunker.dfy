/**
 * The first `xml_extract_content` generator: it keeps the text inside
 * `<body>` with no separator between elements, and cuts it as soon as the
 * pending `String` is `nb_words_per_yield` bytes long or longer (its length
 * in UTF-8 bytes, not in words).
 */
module ByteLengthChunker {
  import opened Wrappers
  import opened Utf8
  import opened XmlEvents
  import opened TextFilter

  const DEFAULT_NB_WORDS_PER_YIELD: nat := 100

  datatype Chunker = Chunker(insideBody: int, content: string, yielded: seq<string>)

  const Initial: Chunker := Chunker(0, "", [])

  function Limit(nbWordsPerYield: Option<nat>): (limit: nat)
    ensures nbWordsPerYield.None? ==> limit == 100
    ensures nbWordsPerYield.Some? ==> limit == nbWordsPerYield.value
  {
    if nbWordsPerYield.Some? then nbWordsPerYield.value else DEFAULT_NB_WORDS_PER_YIELD
  }

  /** `String::len`: the length of `s` in UTF-8 bytes. */
  function ByteLen(s: string): nat
  {
    EncodedLen(s)
  }

  function PushChar(g: Chunker, c: char, limit: nat): Chunker
  {
    var content := g.content + [c];
    if ByteLen(content) >= limit then g.(content := "", yielded := g.yielded + [content])
    else g.(content := content)
  }

  function PushText(g: Chunker, text: string, limit: nat): Chunker
    decreases |text|
  {
    if text == [] then g else PushText(PushChar(g, text[0], limit), text[1..], limit)
  }

  function OnEvent(g: Chunker, e: Event, limit: nat): Chunker
  {
    match e
    case Start(name) => if name == BODY then g.(insideBody := g.insideBody + 1) else g
    case End(name) => if name == BODY then g.(insideBody := g.insideBody - 1) else g
    case Text(bytes) => if g.insideBody > 0 then PushText(g, ByteChars(bytes), limit) else g
    case _ => g
  }

  function Run(g: Chunker, events: seq<Event>, limit: nat): (Chunker, Completion)
    decreases |events|
  {
    if events == [] then (g, Completed)
    else match events[0]
      case Eof => (g, Completed)
      case Error(_) => (g, Panicked)
      case _ => Run(OnEvent(g, events[0], limit), events[1..], limit)
  }

  /** Everything the generator yields (the remaining content last, even if empty), then how it ends. */
  function Extract(events: seq<Event>, nbWordsPerYield: Option<nat>): (seq<string>, Completion)
  {
    var (g, completion) := Run(Initial, events, Limit(nbWordsPerYield));
    if completion == Panicked then (g.yielded, Panicked) else (g.yielded + [g.content], Completed)
  }

  // ---- Reference views ----

  function Max(a: nat, b: nat): nat { if a < b then b else a }

  predicate IsLatin1(s: string)
  {
    forall k :: 0 <= k < |s| ==> s[k] as int < 0x100
  }

  predicate IsAscii(s: string)
  {
    forall k :: 0 <= k < |s| ==> s[k] as int < 0x80
  }

  /**
   * A cut chunk: it reached the limit, by at most one byte more, and by
   * exactly the limit when it is ASCII (at least one char when the limit is
   * 0).
   */
  predicate GoodChunk(s: string, limit: nat)
  {
    && s != []
    && Max(limit, 1) <= ByteLen(s) <= Max(limit, 1) + 1
    && (IsAscii(s) ==> ByteLen(s) == Max(limit, 1))
  }

  /** The pending content: Latin-1 chars, shorter than the limit. */
  predicate PendingInv(content: string, limit: nat)
  {
    IsLatin1(content) && ByteLen(content) < Max(limit, 1)
  }

  predicate Inv(g: Chunker, limit: nat)
  {
    && PendingInv(g.content, limit)
    && forall k :: 0 <= k < |g.yielded| ==> GoodChunk(g.yielded[k], limit)
  }

  function Tracked(g: Chunker): string
  {
    Concat(g.yielded) + g.content
  }

  /** A Latin-1 char takes one byte below U+0080 and two above. */
  lemma Latin1Len(c: char)
    requires c as int < 0x100
    ensures Utf8Len(c) <= 2
    ensures c as int < 0x80 ==> Utf8Len(c) == 1
  {
  }

  /** An ASCII string takes one byte per char. */
  lemma {:induction false} AsciiLen(s: string)
    requires IsAscii(s)
    ensures ByteLen(s) == |s|
    decreases |s|
  {
    if s != [] {
      assert IsAscii(s[..|s| - 1]);
      AsciiLen(s[..|s| - 1]);
    }
  }

  /** The content a char completes is a good chunk when it reaches the limit. */
  lemma PushedChunk(content: string, c: char, limit: nat)
    requires PendingInv(content, limit) && c as int < 0x100
    requires ByteLen(content + [c]) >= limit
    ensures GoodChunk(content + [c], limit)
  {
    var s := content + [c];
    assert s[..|s| - 1] == content;
    Latin1Len(c);
    if IsAscii(s) {
      assert IsAscii(content);
      AsciiLen(content);
      AsciiLen(s);
    }
  }

  /** Otherwise it stays pending. */
  lemma PushedPending(content: string, c: char, limit: nat)
    requires PendingInv(content, limit) && c as int < 0x100
    requires ByteLen(content + [c]) < limit
    ensures PendingInv(content + [c], limit)
  {
    var s := content + [c];
    assert s[..|s| - 1] == content;
  }

  lemma PushCharKeeps(g: Chunker, c: char, limit: nat)
    requires Inv(g, limit) && c as int < 0x100
    ensures Inv(PushChar(g, c, limit), limit) && PushChar(g, c, limit).insideBody == g.insideBody
    ensures Tracked(PushChar(g, c, limit)) == Tracked(g) + [c]
  {
    var content := g.content + [c];
    var r := PushChar(g, c, limit);
    if ByteLen(content) >= limit {
      PushedChunk(g.content, c, limit);
      assert r == g.(content := "", yielded := g.yielded + [content]);
      assert PendingInv("", limit);
      ConcatAppend(g.yielded, content);
      assert Tracked(r) == Concat(g.yielded) + content + "";
    } else {
      PushedPending(g.content, c, limit);
      assert r == g.(content := content);
    }
  }

  lemma {:induction false} PushTextKeeps(g: Chunker, text: string, limit: nat)
    requires Inv(g, limit) && IsLatin1(text)
    ensures Inv(PushText(g, text, limit), limit) && PushText(g, text, limit).insideBody == g.insideBody
    ensures Tracked(PushText(g, text, limit)) == Tracked(g) + text
    decreases |text|
  {
    if text != [] {
      var g1 := PushChar(g, text[0], limit);
      assert PushText(g, text, limit) == PushText(g1, text[1..], limit);
      PushCharKeeps(g, text[0], limit);
      PushTextKeeps(g1, text[1..], limit);
      assert Tracked(g1) + text[1..] == Tracked(g) + text by {
        assert text == [text[0]] + text[1..];
      }
    }
  }

  lemma {:induction false} RunKeeps(g: Chunker, events: seq<Event>, limit: nat)
    requires Inv(g, limit)
    ensures Inv(Run(g, events, limit).0, limit)
    ensures Run(g, events, limit).1 == Panicked <==> FailsBeforeEof(events)
    ensures Run(g, events, limit).1 == Completed ==>
              Tracked(Run(g, events, limit).0) == Tracked(g) + BodyText(g.insideBody, events)
    decreases |events|
  {
    if events != [] && !events[0].Eof? && !events[0].Error? {
      StepKeeps(g, events, limit);
      RunKeeps(OnEvent(g, events[0], limit), events[1..], limit);
    }
  }

  /** One event keeps the invariant, and what it adds to the tracked text is its share of the body text. */
  ghost predicate StepKept(g: Chunker, events: seq<Event>, limit: nat)
    requires events != []
  {
    var g1 := OnEvent(g, events[0], limit);
    && Inv(g1, limit)
    && Tracked(g1) + BodyText(g1.insideBody, events[1..]) == Tracked(g) + BodyText(g.insideBody, events)
  }

  lemma StepKeeps(g: Chunker, events: seq<Event>, limit: nat)
    requires Inv(g, limit) && events != [] && !events[0].Eof? && !events[0].Error?
    ensures StepKept(g, events, limit)
  {
    if events[0].Text? && g.insideBody > 0 {
      BodyTextStepKeeps(g, events, limit);
    } else {
      var g1 := OnEvent(g, events[0], limit);
      assert g1.content == g.content && g1.yielded == g.yielded;
      assert BodyText(g.insideBody, events) == BodyText(g1.insideBody, events[1..]);
    }
  }

  /** `StepKeeps` at a text event inside `<body>`. */
  lemma BodyTextStepKeeps(g: Chunker, events: seq<Event>, limit: nat)
    requires Inv(g, limit) && events != [] && events[0].Text? && g.insideBody > 0
    ensures StepKept(g, events, limit)
  {
    var text := ByteChars(events[0].content);
    var g1 := PushText(g, text, limit);
    var rest := BodyText(g.insideBody, events[1..]);
    assert OnEvent(g, events[0], limit) == g1;
    BytesKeep(g, events[0].content, limit);
    assert BodyText(g.insideBody, events) == text + rest;
    assert Tracked(g1) + rest == Tracked(g) + (text + rest);
  }

  /** The chars of a text event are Latin-1, so pushing them keeps the invariant. */
  lemma BytesKeep(g: Chunker, bytes: seq<byte>, limit: nat)
    requires Inv(g, limit)
    ensures Inv(PushText(g, ByteChars(bytes), limit), limit)
    ensures PushText(g, ByteChars(bytes), limit).insideBody == g.insideBody
    ensures Tracked(PushText(g, ByteChars(bytes), limit)) == Tracked(g) + ByteChars(bytes)
  {
    var text := ByteChars(bytes);
    assert IsLatin1(text) by {
      forall k | 0 <= k < |text| ensures text[k] as int < 0x100 {
        assert text[k] == ByteChar(bytes[k]);
      }
    }
    PushTextKeeps(g, text, limit);
  }

  /**
   * Every chunk but the last reached the limit by at most one byte (exactly
   * for ASCII text), the last is shorter than the limit, and on completion
   * the chunks put back together are exactly the body text.
   */
  lemma ExtractProperties(events: seq<Event>, nbWordsPerYield: Option<nat>)
    ensures var (chunks, completion) := Extract(events, nbWordsPerYield);
            var limit := Limit(nbWordsPerYield);
            && (completion == Panicked <==> FailsBeforeEof(events))
            && (completion == Panicked ==> forall k :: 0 <= k < |chunks| ==> GoodChunk(chunks[k], limit))
            && (completion == Completed ==>
                  && |chunks| > 0
                  && (forall k :: 0 <= k < |chunks| - 1 ==> GoodChunk(chunks[k], limit))
                  && ByteLen(chunks[|chunks| - 1]) < Max(limit, 1)
                  && Concat(chunks) == BodyText(0, events))
  {
    var limit := Limit(nbWordsPerYield);
    assert PendingInv("", limit);
    RunKeeps(Initial, events, limit);
    var (g, completion) := Run(Initial, events, limit);
    if completion == Completed {
      ConcatAppend(g.yielded, g.content);
      assert Tracked(Initial) == [];
      var chunks := g.yielded + [g.content];
      assert forall k :: 0 <= k < |chunks| - 1 ==> chunks[k] == g.yielded[k];
    }
  }

  /** An empty document yields one empty content, then completes. */
  lemma EmptyDocumentYieldsEmptyContent(nbWordsPerYield: Option<nat>)
    ensures Extract([], nbWordsPerYield) == ([""], Completed)
  {
    var r := Run(Initial, [], Limit(nbWordsPerYield));
    assert r == (Initial, Completed);
    assert r.0.yielded + [r.0.content] == [""];
  }

  /** The generator loop itself. */
  method ExtractContent(events: seq<Event>, nbWordsPerYield: Option<nat>)
    returns (yielded: seq<string>, completion: Completion)
    ensures (yielded, completion) == Extract(events, nbWordsPerYield)
    ensures completion == Panicked <==> FailsBeforeEof(events)
    ensures completion == Completed ==> |yielded| > 0 && Concat(yielded) == BodyText(0, events)
  {
    var limit := if nbWordsPerYield.Some? then nbWordsPerYield.value else DEFAULT_NB_WORDS_PER_YIELD;
    var insideBody, content;
    insideBody, content, yielded, completion := EventLoop(events, limit);
    if completion == Completed {
      yielded := yielded + [content];
    }
    ExtractProperties(events, nbWordsPerYield);
  }

  /** The generator's loop over the events: it stops at the end of the document or at a parser error. */
  method EventLoop(events: seq<Event>, limit: nat)
    returns (insideBody: int, content: string, yielded: seq<string>, completion: Completion)
    ensures Run(Initial, events, limit) == (Chunker(insideBody, content, yielded), completion)
  {
    insideBody, content, yielded := 0, "", [];
    completion := Completed;
    var pos := 0;
    var done := false;
    while pos < |events| && !done
      invariant 0 <= pos <= |events|
      invariant !done ==> completion == Completed
      invariant !done ==> Run(Initial, events, limit) == Run(Chunker(insideBody, content, yielded), events[pos..], limit)
      invariant done ==> Run(Initial, events, limit) == (Chunker(insideBody, content, yielded), completion)
      decreases |events| - pos, !done
    {
      assert events[pos..][1..] == events[pos + 1..];
      match events[pos] {
        case Error(_) =>
          completion := Panicked;
          done := true;
        case Eof =>
          done := true;
        case Start(name) =>
          if name == BODY {
            insideBody := insideBody + 1;
          }
          pos := pos + 1;
        case End(name) =>
          if name == BODY {
            insideBody := insideBody - 1;
          }
          pos := pos + 1;
        case Text(bytes) =>
          if insideBody > 0 {
            content, yielded := PushTextLoop(insideBody, content, yielded, ByteChars(bytes), limit);
          }
          pos := pos + 1;
        case Other =>
          pos := pos + 1;
      }
    }
  }

  /** The inner loop: one char at a time, a piece is yielded as soon as it is `limit` bytes long. */
  method PushTextLoop(insideBody: int, content0: string, yielded0: seq<string>, text: string, limit: nat)
    returns (content: string, yielded: seq<string>)
    ensures PushText(Chunker(insideBody, content0, yielded0), text, limit) == Chunker(insideBody, content, yielded)
  {
    content, yielded := content0, yielded0;
    var k := 0;
    while k < |text|
      invariant 0 <= k <= |text|
      invariant PushText(Chunker(insideBody, content0, yielded0), text, limit)
                == PushText(Chunker(insideBody, content, yielded), text[k..], limit)
    {
      assert text[k..][1..] == text[k + 1..];
      content := content + [text[k]];
      if EncodedLen(content) >= limit {
        yielded := yielded + [content];
        content := "";
      }
      k := k + 1;
    }
  }
}
