/**
 * `extract_epub_content` (worker) and `xml_extract_content` (ingestion
 * service), two copies of one generator: it walks the XML events of an
 * XHTML document, keeps the text inside `<body>`, inserts a space when a tag
 * closes and cuts the text into chunks of about `nb_words_per_yield` words.
 */
module XmlEventChunker {
  import opened Wrappers
  import opened Utf8
  import opened XmlEvents
  import opened WordCount
  import opened TextFilter

  const DEFAULT_NB_WORDS_PER_YIELD: nat := 100

  /** `UNWANTED_CHARS = ['\n']`. */
  predicate Unwanted(c: char)
  {
    c == '\n'
  }

  /** The generator's local variables, and what it has yielded so far. */
  datatype Chunker = Chunker(
    insideBody: int,
    content: string,
    nbWords: nat,
    previousState: CharState,
    yielded: seq<string>)

  const Initial: Chunker := Chunker(0, "", 0, NoChar, [])

  function Limit(nbWordsPerYield: Option<nat>): (limit: nat)
    ensures nbWordsPerYield.None? ==> limit == 100
    ensures nbWordsPerYield.Some? ==> limit == nbWordsPerYield.value
  {
    if nbWordsPerYield.Some? then nbWordsPerYield.value else DEFAULT_NB_WORDS_PER_YIELD
  }

  /** One byte of a text event inside the body. At the limit a space just pushed is popped before the yield. */
  function PushChar(g: Chunker, c: char, limit: nat): Chunker
  {
    if Unwanted(c) then g
    else
      var cur := StateOf(c);
      if Skips(g.previousState, cur) then g
      else
        var content := g.content + [c];
        var nbWords := g.nbWords + Increment(g.previousState, cur);
        if nbWords >= limit then
          var chunk := if cur == Space then content[..|content| - 1] else content;
          Chunker(g.insideBody, "", 0, NoChar, g.yielded + [chunk])
        else
          g.(content := content, nbWords := nbWords, previousState := cur)
  }

  function PushText(g: Chunker, text: string, limit: nat): Chunker
    decreases |text|
  {
    if text == [] then g else PushText(PushChar(g, text[0], limit), text[1..], limit)
  }

  /** The closing of a tag other than `body`. */
  function CloseTag(g: Chunker): Chunker
  {
    if g.insideBody > 0 && g.previousState != Space then
      g.(nbWords := g.nbWords + (if g.previousState == Normal then 1 else 0),
         content := g.content + " ",
         previousState := Space)
    else g
  }

  /** One event other than `Eof` and an error. */
  function OnEvent(g: Chunker, e: Event, limit: nat): Chunker
  {
    match e
    case Start(name) => if name == BODY then g.(insideBody := g.insideBody + 1) else g
    case End(name) => if name == BODY then g.(insideBody := g.insideBody - 1) else CloseTag(g)
    case Text(bytes) => if g.insideBody > 0 then PushText(g, ByteChars(bytes), limit) else g
    case _ => g
  }

  /** The events up to the first `Eof` or error. */
  function Run(g: Chunker, events: seq<Event>, limit: nat): (Chunker, Completion)
    decreases |events|
  {
    if events == [] then (g, Completed)
    else match events[0]
      case Eof => (g, Completed)
      case Error(_) => (g, Panicked)
      case _ => Run(OnEvent(g, events[0], limit), events[1..], limit)
  }

  /** After `Eof`: a trailing space is popped and the last content is yielded. */
  function Finish(g: Chunker): seq<string>
  {
    g.yielded + [if g.previousState == Space && g.content != [] then g.content[..|g.content| - 1] else g.content]
  }

  /** Everything the generator yields, then how it ends. */
  function Extract(events: seq<Event>, nbWordsPerYield: Option<nat>): (seq<string>, Completion)
  {
    var (g, completion) := Run(Initial, events, Limit(nbWordsPerYield));
    if completion == Panicked then (g.yielded, Panicked) else (Finish(g), Completed)
  }

  // ---- Reference views ----

  predicate Kept(c: char)
  {
    c != ' ' && !Unwanted(c)
  }

  function Visible(s: string): string
  {
    Filter(s, Kept)
  }

  /** What every yielded chunk satisfies: no newline, no two spaces in a row, no trailing space. */
  predicate GoodChunk(s: string)
  {
    NoDoubleSpace(s) && LastState(s) != Space && forall k :: 0 <= k < |s| ==> !Unwanted(s[k])
  }

  predicate GoodChunks(chunks: seq<string>)
  {
    forall k :: 0 <= k < |chunks| ==> GoodChunk(chunks[k])
  }

  predicate PendingInv(g: Chunker)
  {
    && g.nbWords == Words(g.content)
    && g.previousState == LastState(g.content)
    && NoDoubleSpace(g.content)
    && forall k :: 0 <= k < |g.content| ==> !Unwanted(g.content[k])
  }

  predicate Inv(g: Chunker)
  {
    PendingInv(g) && GoodChunks(g.yielded)
  }

  function Tracked(g: Chunker): string
  {
    Concat(g.yielded) + g.content
  }

  lemma GoodChunksAppend(chunks: seq<string>, x: string)
    requires GoodChunks(chunks) && GoodChunk(x)
    ensures GoodChunks(chunks + [x])
  {
  }

  /** The content after a kept char: counted, single-spaced, without newline. */
  lemma PushedContent(g: Chunker, c: char)
    requires PendingInv(g)
    requires !Unwanted(c) && !Skips(g.previousState, StateOf(c))
    ensures Words(g.content + [c]) == g.nbWords + Increment(g.previousState, StateOf(c))
    ensures NoDoubleSpace(g.content + [c])
    ensures forall k :: 0 <= k < |g.content + [c]| ==> !Unwanted((g.content + [c])[k])
  {
    WordsAppend(g.content, c);
    NoDoubleSpaceAppend(g.content, c);
  }

  ghost predicate PushKept(g: Chunker, c: char, limit: nat)
  {
    && Inv(PushChar(g, c, limit))
    && PushChar(g, c, limit).insideBody == g.insideBody
    && Visible(Tracked(PushChar(g, c, limit))) == Visible(Tracked(g)) + Visible([c])
  }

  lemma PushKeptChar(g: Chunker, c: char, limit: nat)
    requires Inv(g)
    requires !Unwanted(c) && !Skips(g.previousState, StateOf(c))
    ensures PushKept(g, c, limit)
  {
    if g.nbWords + Increment(g.previousState, StateOf(c)) >= limit {
      YieldingChar(g, c, limit);
    } else {
      PendingChar(g, c, limit);
    }
  }

  /** `PushKeptChar` below the limit: the char joins the pending content. */
  lemma PendingChar(g: Chunker, c: char, limit: nat)
    requires Inv(g)
    requires !Unwanted(c) && !Skips(g.previousState, StateOf(c))
    requires g.nbWords + Increment(g.previousState, StateOf(c)) < limit
    ensures PushKept(g, c, limit)
  {
    var content := g.content + [c];
    var r := PushChar(g, c, limit);
    assert r == g.(content := content, nbWords := g.nbWords + Increment(g.previousState, StateOf(c)),
                   previousState := StateOf(c));
    assert Inv(r) by {
      PushedContent(g, c);
    }
    assert Tracked(r) == Tracked(g) + [c];
    assert Visible(Tracked(g) + [c]) == Visible(Tracked(g)) + Visible([c]) by {
      FilterPush(Tracked(g), c, Kept);
      FilterSingle(c, Kept);
    }
  }

  /** `PushKeptChar` when the char reaches the limit: the content, less a trailing space, is yielded. */
  lemma YieldingChar(g: Chunker, c: char, limit: nat)
    requires Inv(g)
    requires !Unwanted(c) && !Skips(g.previousState, StateOf(c))
    requires g.nbWords + Increment(g.previousState, StateOf(c)) >= limit
    ensures PushKept(g, c, limit)
  {
    if c == ' ' {
      YieldingSpace(g, limit);
    } else {
      YieldingWordChar(g, c, limit);
    }
  }

  /** A space that reaches the limit is popped: the content yielded is the one before it. */
  lemma YieldingSpace(g: Chunker, limit: nat)
    requires Inv(g)
    requires !Skips(g.previousState, Space)
    requires g.nbWords + Increment(g.previousState, Space) >= limit
    ensures PushKept(g, ' ', limit)
  {
    var r := PushChar(g, ' ', limit);
    assert r == Chunker(g.insideBody, "", 0, NoChar, g.yielded + [g.content]) by {
      var content := g.content + [' '];
      assert content[..|content| - 1] == g.content;
    }
    assert Inv(r) by {
      assert LastState(g.content) != Space;
      GoodChunksAppend(g.yielded, g.content);
    }
    assert Tracked(r) == Tracked(g) by {
      ConcatAppend(g.yielded, g.content);
    }
    assert Visible([' ']) == [] by {
      FilterSingle(' ', Kept);
    }
  }

  /** Any other char that reaches the limit is yielded with the content. */
  lemma YieldingWordChar(g: Chunker, c: char, limit: nat)
    requires Inv(g) && c != ' '
    requires !Unwanted(c) && !Skips(g.previousState, StateOf(c))
    requires g.nbWords + Increment(g.previousState, StateOf(c)) >= limit
    ensures PushKept(g, c, limit)
  {
    var content := g.content + [c];
    var r := PushChar(g, c, limit);
    assert r == Chunker(g.insideBody, "", 0, NoChar, g.yielded + [content]);
    assert Inv(r) by {
      PushedContent(g, c);
      NoDoubleSpacePrefix(content, |content|);
      GoodChunksAppend(g.yielded, content);
    }
    assert Tracked(r) == Tracked(g) + [c] by {
      ConcatAppend(g.yielded, content);
    }
    assert Visible(Tracked(g) + [c]) == Visible(Tracked(g)) + Visible([c]) by {
      FilterPush(Tracked(g), c, Kept);
      FilterSingle(c, Kept);
    }
  }

  /** One char keeps the invariant; only a space or a newline can vanish. */
  lemma PushCharKeeps(g: Chunker, c: char, limit: nat)
    requires Inv(g)
    ensures Inv(PushChar(g, c, limit)) && PushChar(g, c, limit).insideBody == g.insideBody
    ensures Visible(Tracked(PushChar(g, c, limit))) == Visible(Tracked(g)) + Visible([c])
  {
    if Unwanted(c) || Skips(g.previousState, StateOf(c)) {
      FilterSingle(c, Kept);
    } else {
      PushKeptChar(g, c, limit);
    }
  }

  lemma {:induction false} PushTextKeeps(g: Chunker, text: string, limit: nat)
    requires Inv(g)
    ensures Inv(PushText(g, text, limit)) && PushText(g, text, limit).insideBody == g.insideBody
    ensures Visible(Tracked(PushText(g, text, limit))) == Visible(Tracked(g)) + Visible(text)
    decreases |text|
  {
    if text != [] {
      PushCharKeeps(g, text[0], limit);
      PushTextKeeps(PushChar(g, text[0], limit), text[1..], limit);
      assert text == [text[0]] + text[1..];
      FilterAppend([text[0]], text[1..], Kept);
    }
  }

  /**
   * Closing a tag in the body appends a space only after a non-space, and
   * the word it adds is exactly the word that space ends.
   */
  lemma CloseTagKeeps(g: Chunker)
    requires Inv(g)
    ensures Inv(CloseTag(g)) && CloseTag(g).insideBody == g.insideBody
    ensures Visible(Tracked(CloseTag(g))) == Visible(Tracked(g))
  {
    if g.insideBody > 0 && g.previousState != Space {
      WordsAppend(g.content, ' ');
      NoDoubleSpaceAppend(g.content, ' ');
      assert Tracked(CloseTag(g)) == Tracked(g) + [' '];
      FilterPush(Tracked(g), ' ', Kept);
    }
  }

  lemma OnEventKeeps(g: Chunker, e: Event, limit: nat)
    requires Inv(g) && !e.Eof? && !e.Error?
    ensures Inv(OnEvent(g, e, limit))
    ensures Visible(Tracked(OnEvent(g, e, limit))) == Visible(Tracked(g)) + Visible(BodyText(g.insideBody, [e]))
  {
    assert [e][1..] == [];
    match e
    case Start(name) =>
    case End(name) =>
      if name != BODY {
        CloseTagKeeps(g);
      }
    case Text(bytes) =>
      if g.insideBody > 0 {
        TextEventKeeps(g, bytes, limit);
      }
    case Other =>
  }

  /** `OnEventKeeps` at a text event in the body: its chars are pushed one by one. */
  lemma TextEventKeeps(g: Chunker, bytes: seq<byte>, limit: nat)
    requires Inv(g) && g.insideBody > 0
    ensures Inv(OnEvent(g, Text(bytes), limit))
    ensures Visible(Tracked(OnEvent(g, Text(bytes), limit)))
            == Visible(Tracked(g)) + Visible(BodyText(g.insideBody, [Text(bytes)]))
  {
    assert OnEvent(g, Text(bytes), limit) == PushText(g, ByteChars(bytes), limit);
    PushTextKeeps(g, ByteChars(bytes), limit);
    assert BodyText(g.insideBody, [Text(bytes)]) == ByteChars(bytes) by {
      assert [Text(bytes)][1..] == [];
      assert ByteChars(bytes) + [] == ByteChars(bytes);
    }
  }

  lemma {:induction false} RunKeeps(g: Chunker, events: seq<Event>, limit: nat)
    requires Inv(g)
    ensures Inv(Run(g, events, limit).0)
    ensures Run(g, events, limit).1 == Panicked <==> FailsBeforeEof(events)
    ensures Run(g, events, limit).1 == Completed ==>
              Visible(Tracked(Run(g, events, limit).0)) == Visible(Tracked(g)) + Visible(BodyText(g.insideBody, events))
    decreases |events|
  {
    if events != [] && !events[0].Eof? && !events[0].Error? {
      var e := events[0];
      var g1 := OnEvent(g, e, limit);
      OnEventKeeps(g, e, limit);
      RunKeeps(g1, events[1..], limit);
      BodyTextStep(g, e, events, limit);
      FilterAppend(BodyText(g.insideBody, [e]), BodyText(g1.insideBody, events[1..]), Kept);
    }
  }

  /** The body text splits into the text of the first event and the text of the rest. */
  lemma BodyTextStep(g: Chunker, e: Event, events: seq<Event>, limit: nat)
    requires events != [] && events[0] == e && !e.Eof? && !e.Error?
    ensures BodyText(g.insideBody, events)
            == BodyText(g.insideBody, [e]) + BodyText(OnEvent(g, e, limit).insideBody, events[1..])
  {
    assert [e][1..] == [];
    match e
    case Start(name) =>
    case End(name) =>
      if name != BODY {
        assert CloseTag(g).insideBody == g.insideBody;
      }
    case Text(bytes) =>
      if g.insideBody > 0 {
        PushTextDepth(g, ByteChars(bytes), limit);
      }
    case Other =>
  }

  lemma {:induction false} PushTextDepth(g: Chunker, text: string, limit: nat)
    ensures PushText(g, text, limit).insideBody == g.insideBody
    decreases |text|
  {
    if text != [] {
      PushTextDepth(PushChar(g, text[0], limit), text[1..], limit);
    }
  }

  /** The final pop and yield keep every chunk good and drop at most a space. */
  lemma FinishKeeps(g: Chunker)
    requires Inv(g)
    ensures GoodChunks(Finish(g))
    ensures Visible(Concat(Finish(g))) == Visible(Tracked(g))
  {
    var content := if g.previousState == Space && g.content != [] then g.content[..|g.content| - 1] else g.content;
    NoDoubleSpacePrefix(g.content, |content|);
    if content != g.content {
      assert content + [' '] == g.content;
      assert Tracked(g) == (Concat(g.yielded) + content) + [' '];
      FilterPush(Concat(g.yielded) + content, ' ', Kept);
      assert LastState(content) != Space;
    }
    GoodChunksAppend(g.yielded, content);
    ConcatAppend(g.yielded, content);
  }

  /**
   * No chunk holds a newline, two spaces in a row or a trailing space; the
   * generator panics exactly when the parser fails before the end of the
   * document; otherwise the chunks hold the body text, in order, with only
   * spaces and newlines removed or added.
   */
  lemma ExtractProperties(events: seq<Event>, nbWordsPerYield: Option<nat>)
    ensures var (chunks, completion) := Extract(events, nbWordsPerYield);
            && GoodChunks(chunks)
            && (completion == Panicked <==> FailsBeforeEof(events))
            && (completion == Completed ==>
                  |chunks| > 0 && Visible(Concat(chunks)) == Visible(BodyText(0, events)))
  {
    var limit := Limit(nbWordsPerYield);
    assert Inv(Initial);
    RunKeeps(Initial, events, limit);
    var (g, completion) := Run(Initial, events, limit);
    if completion == Completed {
      FinishKeeps(g);
      assert Tracked(Initial) == [];
    }
  }

  /**
   * When the counter reaches the limit, the content is yielded without the
   * space that triggered it, if it was one, and the counter, the content
   * and the state start over.
   */
  lemma LimitYieldsContent(g: Chunker, c: char, limit: nat)
    requires Inv(g)
    requires !Unwanted(c) && !Skips(g.previousState, StateOf(c))
    requires g.nbWords + Increment(g.previousState, StateOf(c)) >= limit
    ensures var r := PushChar(g, c, limit);
            && r.yielded == g.yielded + [if c == ' ' then g.content else g.content + [c]]
            && Words(g.content + [c]) >= limit
            && r.content == [] && r.nbWords == 0 && r.previousState == NoChar
  {
    WordsAppend(g.content, c);
    assert c == ' ' ==> (g.content + [c])[..|g.content|] == g.content;
  }

  /** An empty document yields one empty content, then completes. */
  lemma EmptyDocumentYieldsEmptyContent(nbWordsPerYield: Option<nat>)
    ensures Extract([], nbWordsPerYield) == ([""], Completed)
    ensures Extract([Eof], nbWordsPerYield) == ([""], Completed)
  {
    var limit := Limit(nbWordsPerYield);
    assert Run(Initial, [], limit) == (Initial, Completed);
    assert Run(Initial, [Eof], limit) == (Initial, Completed);
    assert Finish(Initial) == [""];
  }

  /** The generator loop itself. */
  method ExtractContent(events: seq<Event>, nbWordsPerYield: Option<nat>)
    returns (yielded: seq<string>, completion: Completion)
    ensures (yielded, completion) == Extract(events, nbWordsPerYield)
    ensures GoodChunks(yielded)
    ensures completion == Panicked <==> FailsBeforeEof(events)
    ensures completion == Completed ==> |yielded| > 0 && Visible(Concat(yielded)) == Visible(BodyText(0, events))
  {
    var limit := if nbWordsPerYield.Some? then nbWordsPerYield.value else DEFAULT_NB_WORDS_PER_YIELD;
    var insideBody, content, nbWords, previousState;
    insideBody, content, nbWords, previousState, yielded, completion := EventLoop(events, limit);
    if completion == Completed {
      if previousState == Space && |content| > 0 {
        content := content[..|content| - 1];
      }
      yielded := yielded + [content];
    }
    ExtractProperties(events, nbWordsPerYield);
  }

  /** The generator's loop over the events: it stops at the end of the document or at a parser error. */
  method EventLoop(events: seq<Event>, limit: nat)
    returns (insideBody: int, content: string, nbWords: nat, previousState: CharState,
             yielded: seq<string>, completion: Completion)
    ensures Run(Initial, events, limit) == (Chunker(insideBody, content, nbWords, previousState, yielded), completion)
  {
    insideBody, content, nbWords, previousState, yielded := 0, "", 0, NoChar, [];
    completion := Completed;
    var pos := 0;
    var done := false;
    while pos < |events| && !done
      invariant 0 <= pos <= |events|
      invariant !done ==> completion == Completed
      invariant !done ==> Run(Initial, events, limit)
                          == Run(Chunker(insideBody, content, nbWords, previousState, yielded), events[pos..], limit)
      invariant done ==> Run(Initial, events, limit)
                         == (Chunker(insideBody, content, nbWords, previousState, yielded), completion)
      decreases |events| - pos, !done
    {
      assert events[pos..][1..] == events[pos + 1..];
      match events[pos] {
        case Error(_) =>
          completion := Panicked;
          done := true;
        case Eof =>
          done := true;
        case Start(name) =>
          if name == BODY {
            insideBody := insideBody + 1;
          }
          pos := pos + 1;
        case End(name) =>
          if name == BODY {
            insideBody := insideBody - 1;
          } else if insideBody > 0 && previousState != Space {
            if previousState == Normal {
              nbWords := nbWords + 1;
            }
            content := content + " ";
            previousState := Space;
          }
          pos := pos + 1;
        case Text(bytes) =>
          if insideBody > 0 {
            content, nbWords, previousState, yielded :=
              PushTextLoop(Chunker(insideBody, content, nbWords, previousState, yielded), ByteChars(bytes), limit);
          }
          pos := pos + 1;
        case Other =>
          pos := pos + 1;
      }
    }
  }

  /** The loop over the chars of one text event in the body. */
  method PushTextLoop(g: Chunker, text: string, limit: nat)
    returns (content: string, nbWords: nat, previousState: CharState, yielded: seq<string>)
    ensures PushText(g, text, limit) == Chunker(g.insideBody, content, nbWords, previousState, yielded)
  {
    content, nbWords, previousState, yielded := g.content, g.nbWords, g.previousState, g.yielded;
    var k := 0;
    while k < |text|
      invariant 0 <= k <= |text|
      invariant PushText(g, text, limit)
                == PushText(Chunker(g.insideBody, content, nbWords, previousState, yielded), text[k..], limit)
    {
      assert text[k..][1..] == text[k + 1..];
      var c := text[k];
      if !Unwanted(c) {
        var currentState := StateOf(c);
        if !Skips(previousState, currentState) {
          nbWords := nbWords + Increment(previousState, currentState);
          content := content + [c];
          if nbWords >= limit {
            if currentState == Space {
              content := content[..|content| - 1];
            }
            yielded := yielded + [content];
            content := "";
            nbWords := 0;
            previousState := NoChar;
          } else {
            previousState := currentState;
          }
        }
      }
      k := k + 1;
    }
  }
}
