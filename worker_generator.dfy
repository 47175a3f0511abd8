/**
 * The worker's `extract_content_generator`: it pulls bytes from a reader
 * that also exposes metadata, decodes them, drops control chars and cuts the
 * text into chunks of about `nb_words_per_yield` words. A change of metadata
 * between two reads also ends a chunk.
 */
module WorkerContentGenerator {
  import opened Wrappers
  import opened Utf8
  import opened Json
  import opened WordCount
  import opened TextFilter

  const DEFAULT_NB_WORDS_PER_YIELD: nat := 100

  /** `UNWANTED_CHARS`: U+0000 to U+001F, U+007F and U+0080 to U+009F. */
  predicate Unwanted(c: char)
  {
    c as int <= 0x1F || 0x7F <= c as int <= 0x9F
  }

  datatype ExtractedContent = ExtractedContent(content: string, metadata: Json)

  datatype GeneratorError = ReadError | Utf8Error

  /**
   * What one `reader.read(&mut buf)` returned: the bytes it wrote together
   * with the metadata `get_current_metadata` gives right after it, or an I/O
   * error.
   */
  datatype ReadOutcome = ReadOk(bytes: seq<byte>, metadata: Json) | ReadFailed

  /** The generator's local variables, and what it has yielded so far. */
  datatype Gen = Gen(
    previousMetadata: Json,
    content: string,
    nbWords: nat,
    previousState: CharState,
    yielded: seq<ExtractedContent>)

  const Initial: Gen := Gen(Null, "", 0, NoChar, [])

  function Limit(nbWordsPerYield: Option<nat>): (limit: nat)
    ensures nbWordsPerYield.None? ==> limit == 100
    ensures nbWordsPerYield.Some? ==> limit == nbWordsPerYield.value
  {
    if nbWordsPerYield.Some? then nbWordsPerYield.value else DEFAULT_NB_WORDS_PER_YIELD
  }

  /** One iteration of the loop over the chars of a read. */
  function PushChar(g: Gen, c: char, limit: nat): Gen
  {
    if Unwanted(c) then g
    else
      var cur := StateOf(c);
      if Skips(g.previousState, cur) then g
      else
        var content := g.content + [c];
        var nbWords := g.nbWords + Increment(g.previousState, cur);
        if nbWords >= limit then
          Gen(g.previousMetadata, "", 0, NoChar, g.yielded + [ExtractedContent(content, g.previousMetadata)])
        else
          g.(content := content, nbWords := nbWords, previousState := cur)
  }

  function PushChars(g: Gen, cs: string, limit: nat): Gen
    decreases |cs|
  {
    if cs == [] then g else PushChars(PushChar(g, cs[0], limit), cs[1..], limit)
  }

  /** The metadata check made after every non-empty read. */
  function SplitOnMetadata(g: Gen, metadata: Json): Gen
  {
    if metadata == g.previousMetadata then g
    else if g.nbWords > 0 then
      Gen(metadata, "", 0, NoChar, g.yielded + [ExtractedContent(g.content, g.previousMetadata)])
    else
      g.(previousMetadata := metadata)
  }

  /**
   * The reads up to the first that returns 0 bytes, fails or is not UTF-8
   * (or to the end of `outcomes`), with the error that stops the loop, if any.
   */
  function Run(g: Gen, outcomes: seq<ReadOutcome>, limit: nat): (Gen, Option<GeneratorError>)
    decreases |outcomes|
  {
    if outcomes == [] then (g, None)
    else match outcomes[0]
      case ReadFailed => (g, Some(ReadError))
      case ReadOk(bytes, metadata) =>
        if bytes == [] then (g, None)
        else
          var g1 := SplitOnMetadata(g, metadata);
          match DecodeAll(bytes)
          case None => (g1, Some(Utf8Error))
          case Some(cs) => Run(PushChars(g1, cs, limit), outcomes[1..], limit)
  }

  /** After the loop: a trailing space is popped and the last content is yielded. */
  function Finish(g: Gen): seq<ExtractedContent>
  {
    var content := if g.previousState == Space && g.content != [] then g.content[..|g.content| - 1] else g.content;
    g.yielded + [ExtractedContent(content, g.previousMetadata)]
  }

  /** Everything the generator yields, then how it completes. */
  function Extract(outcomes: seq<ReadOutcome>, nbWordsPerYield: Option<nat>): (seq<ExtractedContent>, Result<(), GeneratorError>)
  {
    var (g, err) := Run(Initial, outcomes, Limit(nbWordsPerYield));
    if err.Some? then (g.yielded, Err(err.value)) else (Finish(g), Ok(()))
  }

  // ---- Reference views used to state what the generator keeps ----

  /** The contents of `chunks`, one after the other. */
  function Contents(chunks: seq<ExtractedContent>): string
  {
    if chunks == [] then [] else Contents(chunks[..|chunks| - 1]) + chunks[|chunks| - 1].content
  }

  /** The chars the generator never drops on its own: neither a space nor unwanted. */
  predicate Kept(c: char)
  {
    c != ' ' && !Unwanted(c)
  }

  /** The chars of `s` other than spaces and unwanted chars, in order. */
  function Visible(s: string): string
  {
    Filter(s, Kept)
  }

  /** The chars of the reads the generator consumes, decoded. */
  function Received(outcomes: seq<ReadOutcome>): string
  {
    if outcomes == [] then []
    else match outcomes[0]
      case ReadFailed => []
      case ReadOk(bytes, _) =>
        if bytes == [] then []
        else match DecodeAll(bytes)
          case None => []
          case Some(cs) => cs + Received(outcomes[1..])
  }

  predicate Clean(s: string)
  {
    SingleSpaced(s) && forall k :: 0 <= k < |s| ==> !Unwanted(s[k])
  }

  /** At most `limit + 1` words: the counter was below the limit before the last char. */
  predicate WithinLimit(s: string, limit: nat)
  {
    Words(s) <= limit + 1
  }

  /** What every chunk the generator yields satisfies. */
  predicate GoodChunks(chunks: seq<ExtractedContent>, limit: nat)
  {
    forall k :: 0 <= k < |chunks| ==> Clean(chunks[k].content) && WithinLimit(chunks[k].content, limit)
  }

  /** The counter and the previous state agree with the pending content. */
  predicate PendingInv(g: Gen, limit: nat)
  {
    && g.nbWords == Words(g.content)
    && g.previousState == LastState(g.content)
    && Clean(g.content)
    && (if limit == 0 then g.content == [] else g.nbWords < limit)
  }

  predicate Inv(g: Gen, limit: nat)
  {
    PendingInv(g, limit) && GoodChunks(g.yielded, limit)
  }

  lemma GoodChunksAppend(chunks: seq<ExtractedContent>, x: ExtractedContent, limit: nat)
    requires GoodChunks(chunks, limit) && Clean(x.content) && WithinLimit(x.content, limit)
    ensures GoodChunks(chunks + [x], limit)
  {
  }

  /** Everything pushed so far, yielded or pending. */
  function Tracked(g: Gen): string
  {
    Contents(g.yielded) + g.content
  }

  lemma VisibleAppend(a: string, b: string)
    ensures Visible(a + b) == Visible(a) + Visible(b)
  {
    FilterAppend(a, b, Kept);
  }

  lemma ContentsAppend(chunks: seq<ExtractedContent>, x: ExtractedContent)
    ensures Contents(chunks + [x]) == Contents(chunks) + x.content
  {
    assert (chunks + [x])[..|chunks|] == chunks;
  }

  lemma VisibleOfSpaceOrUnwanted(s: string, c: char)
    requires c == ' ' || Unwanted(c)
    ensures Visible(s + [c]) == Visible(s)
  {
    FilterPush(s, c, Kept);
  }

  /** One char keeps the invariant, and only a space or an unwanted char can vanish. */
  lemma PushCharKeeps(g: Gen, c: char, limit: nat)
    requires Inv(g, limit)
    ensures Inv(PushChar(g, c, limit), limit)
    ensures Visible(Tracked(PushChar(g, c, limit))) == Visible(Tracked(g)) + Visible([c])
  {
    if Unwanted(c) || Skips(g.previousState, StateOf(c)) {
      FilterSingle(c, Kept);
    } else {
      PushKeptChar(g, c, limit);
    }
  }

  lemma PushKeptChar(g: Gen, c: char, limit: nat)
    requires Inv(g, limit)
    requires !Unwanted(c) && !Skips(g.previousState, StateOf(c))
    ensures Inv(PushChar(g, c, limit), limit)
    ensures Visible(Tracked(PushChar(g, c, limit))) == Visible(Tracked(g)) + Visible([c])
  {
    var r := PushChar(g, c, limit);
    var content := g.content + [c];
    PushedContent(g, c, limit);
    PushedVisible(Tracked(g), c);
    assert Contents(g.yielded) + content == Tracked(g) + [c];
    if g.nbWords + Increment(g.previousState, StateOf(c)) >= limit {
      var x := ExtractedContent(content, g.previousMetadata);
      ContentsAppend(g.yielded, x);
      GoodChunksAppend(g.yielded, x, limit);
      assert r == Gen(g.previousMetadata, "", 0, NoChar, g.yielded + [x]);
      assert Tracked(r) == Contents(g.yielded) + content + "";
      assert Tracked(r) == Tracked(g) + [c];
    } else {
      assert Tracked(r) == Contents(g.yielded) + content;
    }
  }

  /** The pending content with a kept char appended is clean and its words are counted. */
  lemma PushedContent(g: Gen, c: char, limit: nat)
    requires PendingInv(g, limit)
    requires !Unwanted(c) && !Skips(g.previousState, StateOf(c))
    ensures Clean(g.content + [c])
    ensures Words(g.content + [c]) == g.nbWords + Increment(g.previousState, StateOf(c))
    ensures g.nbWords + Increment(g.previousState, StateOf(c)) >= limit ==> WithinLimit(g.content + [c], limit)
  {
    WordsAppend(g.content, c);
    IncrementBound(g.previousState, StateOf(c));
    SingleSpacedAppend(g.content, c);
  }

  lemma PushedVisible(t: string, c: char)
    ensures Visible(t + [c]) == Visible(t) + Visible([c])
  {
    FilterPush(t, c, Kept);
    FilterSingle(c, Kept);
  }

  lemma {:induction false} PushCharsKeeps(g: Gen, cs: string, limit: nat)
    requires Inv(g, limit)
    ensures Inv(PushChars(g, cs, limit), limit)
    ensures Visible(Tracked(PushChars(g, cs, limit))) == Visible(Tracked(g)) + Visible(cs)
    decreases |cs|
  {
    if cs != [] {
      PushCharKeeps(g, cs[0], limit);
      PushCharsKeeps(PushChar(g, cs[0], limit), cs[1..], limit);
      assert Visible(cs) == Visible([cs[0]]) + Visible(cs[1..]) by {
        assert cs == [cs[0]] + cs[1..];
        VisibleAppend([cs[0]], cs[1..]);
      }
    }
  }

  lemma SplitOnMetadataKeeps(g: Gen, metadata: Json, limit: nat)
    requires Inv(g, limit)
    ensures Inv(SplitOnMetadata(g, metadata), limit)
    ensures Tracked(SplitOnMetadata(g, metadata)) == Tracked(g)
  {
    if metadata != g.previousMetadata && g.nbWords > 0 {
      ContentsAppend(g.yielded, ExtractedContent(g.content, g.previousMetadata));
    }
  }

  lemma {:induction false} RunKeeps(g: Gen, outcomes: seq<ReadOutcome>, limit: nat)
    requires Inv(g, limit)
    ensures Inv(Run(g, outcomes, limit).0, limit)
    ensures Run(g, outcomes, limit).1.None? ==>
              Visible(Tracked(Run(g, outcomes, limit).0)) == Visible(Tracked(g)) + Visible(Received(outcomes))
    decreases |outcomes|
  {
    if outcomes != [] && outcomes[0].ReadOk? && outcomes[0].bytes != [] {
      var g1 := SplitOnMetadata(g, outcomes[0].metadata);
      SplitOnMetadataKeeps(g, outcomes[0].metadata, limit);
      match DecodeAll(outcomes[0].bytes)
      case None =>
      case Some(cs) =>
        PushCharsKeeps(g1, cs, limit);
        RunKeeps(PushChars(g1, cs, limit), outcomes[1..], limit);
        VisibleAppend(cs, Received(outcomes[1..]));
    }
  }

  /** The final pop and yield keep every chunk good and drop at most a space. */
  lemma FinishKeeps(g: Gen, limit: nat)
    requires Inv(g, limit)
    ensures var chunks := Finish(g);
            && GoodChunks(chunks, limit)
            && LastState(chunks[|chunks| - 1].content) != Space
            && Visible(Contents(chunks)) == Visible(Tracked(g))
  {
    var content := if g.previousState == Space && g.content != [] then g.content[..|g.content| - 1] else g.content;
    SingleSpacedPrefix(g.content, |content|);
    if content != g.content {
      assert content + [' '] == g.content;
      WordsAppend(content, ' ');
      assert Tracked(g) == (Contents(g.yielded) + content) + [' '];
      VisibleOfSpaceOrUnwanted(Contents(g.yielded) + content, ' ');
      assert LastState(content) != Space;
    }
    var x := ExtractedContent(content, g.previousMetadata);
    ContentsAppend(g.yielded, x);
    GoodChunksAppend(g.yielded, x, limit);
  }

  /**
   * Every chunk is single-spaced, free of unwanted chars and holds at most
   * `limit + 1` words; on success the last chunk does not end in a space,
   * and no char other than a space or an unwanted char is lost, duplicated
   * or moved.
   */
  lemma ExtractProperties(outcomes: seq<ReadOutcome>, nbWordsPerYield: Option<nat>)
    ensures var (chunks, completion) := Extract(outcomes, nbWordsPerYield);
            && GoodChunks(chunks, Limit(nbWordsPerYield))
            && (completion.Ok? ==>
                  && |chunks| > 0
                  && LastState(chunks[|chunks| - 1].content) != Space
                  && Visible(Contents(chunks)) == Visible(Received(outcomes)))
  {
    var limit := Limit(nbWordsPerYield);
    assert Inv(Initial, limit);
    RunKeeps(Initial, outcomes, limit);
    var (g, err) := Run(Initial, outcomes, limit);
    if err.None? {
      FinishKeeps(g, limit);
      assert Tracked(Initial) == [];
    }
  }

  /** Yields are never taken back: every step only appends to what was yielded. */
  lemma {:induction false} PushCharsExtends(g: Gen, cs: string, limit: nat)
    ensures g.yielded <= PushChars(g, cs, limit).yielded
    decreases |cs|
  {
    if cs != [] {
      PushCharsExtends(PushChar(g, cs[0], limit), cs[1..], limit);
    }
  }

  lemma {:induction false} RunExtends(g: Gen, outcomes: seq<ReadOutcome>, limit: nat)
    ensures g.yielded <= Run(g, outcomes, limit).0.yielded
    decreases |outcomes|
  {
    if outcomes != [] && outcomes[0].ReadOk? && outcomes[0].bytes != [] {
      var g1 := SplitOnMetadata(g, outcomes[0].metadata);
      match DecodeAll(outcomes[0].bytes)
      case None =>
      case Some(cs) =>
        PushCharsExtends(g1, cs, limit);
        RunExtends(PushChars(g1, cs, limit), outcomes[1..], limit);
    }
  }

  /**
   * A read whose metadata differs from the previous one, while words are
   * pending, first yields the pending content with the previous metadata.
   */
  lemma MetadataChangeYieldsPending(g: Gen, outcomes: seq<ReadOutcome>, limit: nat)
    requires outcomes != [] && outcomes[0].ReadOk? && outcomes[0].bytes != []
    requires outcomes[0].metadata != g.previousMetadata && g.nbWords > 0
    ensures var r := Run(g, outcomes, limit).0;
            |r.yielded| > |g.yielded| && r.yielded[|g.yielded|] == ExtractedContent(g.content, g.previousMetadata)
  {
    var g1 := SplitOnMetadata(g, outcomes[0].metadata);
    assert g1.yielded == g.yielded + [ExtractedContent(g.content, g.previousMetadata)];
    match DecodeAll(outcomes[0].bytes)
    case None =>
    case Some(cs) =>
      PushCharsExtends(g1, cs, limit);
      RunExtends(PushChars(g1, cs, limit), outcomes[1..], limit);
  }

  /**
   * When the counter reaches the limit, the content with the char just
   * pushed is yielded as it is (a trailing space is kept), it holds at least
   * `limit` words, and the counter, the content and the state start over.
   */
  lemma LimitYieldsContent(g: Gen, c: char, limit: nat)
    requires Inv(g, limit)
    requires !Unwanted(c) && !Skips(g.previousState, StateOf(c))
    requires g.nbWords + Increment(g.previousState, StateOf(c)) >= limit
    ensures var r := PushChar(g, c, limit);
            && r.yielded == g.yielded + [ExtractedContent(g.content + [c], g.previousMetadata)]
            && Words(g.content + [c]) >= limit
            && r.content == [] && r.nbWords == 0 && r.previousState == NoChar
  {
    WordsAppend(g.content, c);
  }

  /** An empty source yields one empty content, then completes with `Ok`. */
  lemma EmptySourceYieldsEmptyContent(nbWordsPerYield: Option<nat>)
    ensures Extract([], nbWordsPerYield) == ([ExtractedContent("", Null)], Ok(()))
    ensures Extract([ReadOk([], Null)], nbWordsPerYield) == ([ExtractedContent("", Null)], Ok(()))
  {
    var limit := Limit(nbWordsPerYield);
    assert Run(Initial, [], limit) == (Initial, None);
    assert Run(Initial, [ReadOk([], Null)], limit) == (Initial, None);
    assert Finish(Initial) == [ExtractedContent("", Null)];
  }

  /** The generator loop itself. */
  /** The inner `for c in chars` loop over the chars of one read. */
  method PushAll(metadata: Json, content0: string, nbWords0: nat, state0: CharState, yielded0: seq<ExtractedContent>,
                 chars: string, limit: nat)
    returns (content: string, nbWords: nat, previousState: CharState, yielded: seq<ExtractedContent>)
    ensures Gen(metadata, content, nbWords, previousState, yielded)
            == PushChars(Gen(metadata, content0, nbWords0, state0, yielded0), chars, limit)
  {
    content, nbWords, previousState, yielded := content0, nbWords0, state0, yielded0;
    var j := 0;
    while j < |chars|
      invariant 0 <= j <= |chars|
      invariant PushChars(Gen(metadata, content0, nbWords0, state0, yielded0), chars, limit)
                == PushChars(Gen(metadata, content, nbWords, previousState, yielded), chars[j..], limit)
    {
      assert chars[j..][1..] == chars[j + 1..];
      var c := chars[j];
      if !Unwanted(c) {
        var currentState := StateOf(c);
        if !Skips(previousState, currentState) {
          nbWords := nbWords + Increment(previousState, currentState);
          content := content + [c];
          if nbWords >= limit {
            yielded := yielded + [ExtractedContent(content, metadata)];
            nbWords := 0;
            content := "";
            previousState := NoChar;
          } else {
            previousState := currentState;
          }
        }
      }
      j := j + 1;
    }
  }

  /**
   * The read loop of the generator: reads until a read returns 0 bytes,
   * fails or is not UTF-8, splitting on metadata changes and pushing the
   * chars of every read. Returns the generator's locals and the error that
   * stopped it, if any.
   */
  method ReadLoop(outcomes: seq<ReadOutcome>, limit: nat)
    returns (previousMetadata: Json, content: string, nbWords: nat, previousState: CharState,
             yielded: seq<ExtractedContent>, failure: Option<GeneratorError>)
    ensures (Gen(previousMetadata, content, nbWords, previousState, yielded), failure) == Run(Initial, outcomes, limit)
  {
    previousMetadata, content, nbWords, previousState, yielded := Null, "", 0, NoChar, [];
    failure := None;
    var i := 0;
    var done := false;
    while i < |outcomes| && !done
      invariant 0 <= i <= |outcomes|
      invariant !done ==> failure.None?
      invariant !done ==> Run(Initial, outcomes, limit)
                          == Run(Gen(previousMetadata, content, nbWords, previousState, yielded), outcomes[i..], limit)
      invariant done ==> Run(Initial, outcomes, limit) == (Gen(previousMetadata, content, nbWords, previousState, yielded), failure)
      decreases |outcomes| - i, !done
    {
      if outcomes[i].ReadFailed? {
        failure := Some(ReadError);
        done := true;
      } else if |outcomes[i].bytes| == 0 {
        done := true;
      } else {
        var metadata := outcomes[i].metadata;
        if metadata != previousMetadata {
          if nbWords > 0 {
            yielded := yielded + [ExtractedContent(content, previousMetadata)];
            nbWords := 0;
            content := "";
            previousState := NoChar;
          }
          previousMetadata := metadata;
        }
        var decoded := DecodeAll(outcomes[i].bytes);
        if decoded.None? {
          failure := Some(Utf8Error);
          done := true;
        } else {
          assert outcomes[i..][1..] == outcomes[i + 1..];
          content, nbWords, previousState, yielded := PushAll(previousMetadata, content, nbWords, previousState, yielded, decoded.value, limit);
          i := i + 1;
        }
      }
    }
  }

  method ExtractContentGenerator(outcomes: seq<ReadOutcome>, nbWordsPerYield: Option<nat>)
    returns (yielded: seq<ExtractedContent>, completion: Result<(), GeneratorError>)
    ensures (yielded, completion) == Extract(outcomes, nbWordsPerYield)
    ensures GoodChunks(yielded, Limit(nbWordsPerYield))
    ensures completion.Ok? ==>
              && |yielded| > 0
              && LastState(yielded[|yielded| - 1].content) != Space
              && Visible(Contents(yielded)) == Visible(Received(outcomes))
  {
    var limit := if nbWordsPerYield.Some? then nbWordsPerYield.value else DEFAULT_NB_WORDS_PER_YIELD;
    var previousMetadata, content, nbWords, previousState, failure;
    previousMetadata, content, nbWords, previousState, yielded, failure := ReadLoop(outcomes, limit);
    if failure.Some? {
      completion := Err(failure.value);
    } else {
      if previousState == Space && |content| > 0 {
        content := content[..|content| - 1];
      }
      yielded := yielded + [ExtractedContent(content, previousMetadata)];
      completion := Ok(());
    }
    ExtractProperties(outcomes, nbWordsPerYield);
  }
}
