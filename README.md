# Content extraction, readers and ingestion plumbing — a Dafny model

This project models the content-extraction layer of the content ingestion
service. That layer turns EPUB/XHTML/PDF sources into ordered text chunks of
about N words. The project also models the small state machines and parsers
around it:

- **Word-counting chunkers** (generators):
  - the worker's metadata-aware `extract_content_generator`;
  - the two XML-event chunkers `extract_epub_content` / `xml_extract_content`;
  - the older byte-length `xml_extract_content`;
  - the hand-rolled HTML tag strippers: the root generator over lines, and the
    service use case over a `SourceBufferPort` char stream;
  - the single-pass `extract_content`.

  Each generator is a method with a `while` loop over an abstract input: read
  results, XML events, lines or pulled chars. Each is proved equal to a fold
  function, and the properties are proved about that fold. The `CharState`
  word table is defined once (`WordCount`). So is the unwanted-character
  filter (`TextFilter`).
- **Source readers** implementing `Read`: the two `XMLReader`s, `EpubReader`,
  `EpubSourceReader`, `PdfReader`, `EpubSourceBuffer` and
  `SimpleMetadataReader`.
  - They are classes whose methods update their fields in place.
  - Each one fills the caller's `array<byte>` through one shared loop
    (`CharBuffer.Fill`), which copies only whole UTF-8 encodings.
  - The foreign documents are values:
    - quick_xml is a sequence of `Event`s;
    - the EPUB document is a spine of chapters whose `go_next` sticks on the
      last chapter;
    - the PDF is a sequence of page texts;
    - metadata is a JSON datatype with `update_metadata` as `Json.Insert`.
- **The sentence splitter** `split_sentences`: the regex
  `\s*(?P<sentence>[^.!?]*(?:[.!?]|$))` written out as a scanner.
- **Broker repositories**:
  - the Idle/Ready `RabbitMQMessageRepository`;
  - the lazily initialised `ChannelContainer` of `MessageRabbitMQRepository`.

  Both run over a `Broker.Connection` object that logs every channel,
  declaration, consumer and publish.
- **Upload validation and storage** of the REST gateway's `add_source_files`:
  - `AddSourceFilesError::status_code`;
  - `SourceType::from_str`;
  - the `SourceMeta` builder defaults;
  - the `Environment` parsers of three services, with `as_str`, endpoints and
    URIs.

Storage, the clock, UUID generation and broker failures are not computed by
the model. They are parameters: one `Outcome` per uploaded file, and
`Option<string>` failure arguments for each broker call.

## Model

| member | source | states |
|---|---|---|
| WordCount.StateOf | content_ingestion_worker/src/domain/services/extract_content_generator.rs:119-125 | a char's state is Space exactly for ' ', Special exactly for the special counting chars, never None |
| WordCount.LastState | content_ingestion_worker/src/domain/services/extract_content_generator.rs:19-25 | the state of the last pushed char is None exactly when nothing was pushed |
| WordCount.WordsAppend | content_ingestion_worker/src/domain/services/extract_content_generator.rs:129-170 | the independent word count of a string grows, on each appended char, by the CharState table's increment from the previous state |
| WordCount.IncrementBound | content_ingestion_worker/src/domain/services/extract_content_generator.rs:129-170 | the table adds at most 2 words per char, and adds 2 exactly on Normal→Special |
| WordCount.NoDoubleSpaceAppend | content_ingestion_worker/src/domain/services/extract_content_generator.rs:130-153 | appending a char that is not a space after a space keeps the content free of two consecutive spaces |
| WordCount.SingleSpacedAppend | content_ingestion_worker/src/domain/services/extract_content_generator.rs:130-153 | appending a char the table does not skip keeps the content single-spaced, with no leading space |
| TextFilter.Filter | content_ingestion_worker/src/domain/services/extract_content_generator.rs:114-117 | dropping the unwanted chars never lengthens the text |
| TextFilter.FilterAppend | content_ingestion_worker/src/domain/services/extract_content_generator.rs:113-117 | filtering distributes over concatenation, so filtering char by char equals filtering the whole read |
| Utf8.Encode | content_ingestion_worker/src/domain/readers/xml_reader.rs:199-217 | `encode_utf8` gives 1 to 4 bytes, every byte after the first a continuation byte |
| Utf8.EncodedLenIsLength | content_ingestion_worker/src/domain/readers/xml_reader.rs:199-217 | the summed `len_utf8` of the chars is the length of their encoding |
| Utf8.DecodeFirstEncode | content_ingestion_worker/src/domain/services/extract_content_generator.rs:112 | decoding the bytes of an encoded char gives back that char and its length |
| Utf8.DecodeAllEncodeAll | content_ingestion_worker/src/domain/services/extract_content_generator.rs:112 | `String::from_utf8` of the bytes the readers wrote gives back exactly the chars they copied |
| Utf8.EncodeAllDecodeAll | content_ingestion_worker/src/domain/services/extract_content_generator.rs:112 | bytes that `from_utf8` accepts are the encoding of the chars it returns |
| Utf8.EncodeAllAppend | content_ingestion_worker/src/domain/readers/xml_reader.rs:199-217 | encoding distributes over concatenation, so successive reads encode the whole text |
| Json.Insert | content_ingestion_worker/src/domain/readers/xml_reader.rs:165-173 | `update_metadata`: the key maps to the value; an object keeps its other keys, any other value is replaced by a one-key object |
| Json.NormalizeInitial | content_ingestion_worker/src/domain/entities/epub_reader.rs:70-75 | None or Null gives Null, an object is kept, any other value becomes a one-key object wrapping it |
| CharBuffer.Fill | content_ingestion_worker/src/domain/readers/xml_reader.rs:199-217 | the fill loop writes the UTF-8 encoding of the copied chars and nothing after it, never more than `buf.len()` bytes, and stops only at the end of the chars or at a char that does not fit |
| CharBuffer.FourBytesFitAnyChar | content_ingestion_worker/src/domain/readers/xml_reader.rs:204-208 | with a buffer of at least 4 bytes, the fill loop copies at least one char |
| CharBuffer.WholeRestFits | content_ingestion_worker/src/domain/readers/xml_reader.rs:199-217 | when the whole rest fits in the buffer, the fill loop copies all of it |
| Formatting.Decimal | content_ingestion_service/src/configuration.rs:74-77 | `format!("{}", port)` is non-empty decimal digits, with a leading zero only for 0 |
| Formatting.DecimalValue | content_ingestion_service/src/configuration.rs:74-77 | reading the decimal digits back gives the number |
| Formatting.Lower | content_ingestion_service/src/configuration.rs:161-164 | `to_lowercase` keeps the length and lowers each ASCII capital |
| Formatting.LowerIdempotent | content_ingestion_service/src/configuration.rs:161-164 | lowering twice is lowering once |
| Formatting.HostPort | content_ingestion_service/src/configuration.rs:74-77 | `"<scheme>://<host>:<port>"` is the scheme, the host, ':' and the port's digits, in that order |
| Formatting.HostPortInjective | content_ingestion_service/src/configuration.rs:90-93 | two host/port pairs give the same URI only if they are equal |
| WorkerContentGenerator.Limit | content_ingestion_worker/src/domain/services/extract_content_generator.rs:15-71 | no `nb_words_per_yield` means 100 words, otherwise the given number |
| WorkerContentGenerator.PushCharKeeps | content_ingestion_worker/src/domain/services/extract_content_generator.rs:113-196 | one char step keeps the invariant: pending content is clean, single-spaced, its word count agrees with `Words`; every yielded chunk is clean and within the limit; the visible text is preserved |
| WorkerContentGenerator.PushKeptChar | content_ingestion_worker/src/domain/services/extract_content_generator.rs:129-196 | a char that is neither unwanted nor skipped keeps the invariant and adds itself to the visible text |
| WorkerContentGenerator.PushedContent | content_ingestion_worker/src/domain/services/extract_content_generator.rs:129-172 | a pushed char keeps the content clean, and the counter equals the reference word count of the new content |
| WorkerContentGenerator.PushCharsKeeps | content_ingestion_worker/src/domain/services/extract_content_generator.rs:113-197 | a whole read keeps the invariant, and the visible text grows by the read's visible text |
| WorkerContentGenerator.SplitOnMetadataKeeps | content_ingestion_worker/src/domain/services/extract_content_generator.rs:88-110 | the metadata split keeps the invariant and loses no text |
| WorkerContentGenerator.RunKeeps | content_ingestion_worker/src/domain/services/extract_content_generator.rs:80-203 | the read loop keeps the invariant; when no error occurs, the visible text grows by everything read |
| WorkerContentGenerator.FinishKeeps | content_ingestion_worker/src/domain/services/extract_content_generator.rs:206-216 | the final yield pops one trailing space: all chunks remain good, the last one does not end in a space, no text is lost |
| WorkerContentGenerator.ExtractProperties | content_ingestion_worker/src/domain/services/extract_content_generator.rs:59-216 | every chunk is free of unwanted chars, has no double space and no leading space, and holds at most limit + 1 words; on Ok there is a final chunk not ending in a space, and the chunks' visible text is exactly the visible text read |
| WorkerContentGenerator.PushCharsExtends | content_ingestion_worker/src/domain/services/extract_content_generator.rs:172-196 | chunks once yielded are never changed |
| WorkerContentGenerator.RunExtends | content_ingestion_worker/src/domain/services/extract_content_generator.rs:80-203 | chunks once yielded are never changed over the whole read loop |
| WorkerContentGenerator.MetadataChangeYieldsPending | content_ingestion_worker/src/domain/services/extract_content_generator.rs:88-110 | a read whose metadata differs while words are pending first yields the pending content with the previous metadata |
| WorkerContentGenerator.LimitYieldsContent | content_ingestion_worker/src/domain/services/extract_content_generator.rs:174-196 | reaching the limit yields the pending content with the char as-is, trailing space included, then resets counter, buffer and state to 0/""/None |
| WorkerContentGenerator.EmptySourceYieldsEmptyContent | content_ingestion_worker/src/domain/services/extract_content_generator.rs:238-258 | an empty source yields "" with Null metadata, then Ok |
| WorkerContentGenerator.PushAll | content_ingestion_worker/src/domain/services/extract_content_generator.rs:113-197 | the per-char loop over one read computes the fold over that read's chars |
| WorkerContentGenerator.ReadLoop | content_ingestion_worker/src/domain/services/extract_content_generator.rs:80-203 | the read loop computes the fold `Run`: it stops at the first read of 0 bytes, at the first failed read (`ReadError`) or at undecodable bytes (`Utf8Error`), and splits on metadata changes |
| WorkerContentGenerator.ExtractContentGenerator | content_ingestion_worker/src/domain/services/extract_content_generator.rs:59-216 | the generator yields the fold's chunks and completion: read errors end in `ReadError`, undecodable bytes in `Utf8Error`, otherwise Ok with the properties above |
| XmlEvents.ByteChar | content_ingestion_worker/src/domain/services/extract_epub_content.rs:79-86 | `char::from(u8)` keeps the code point |
| XmlEvents.ByteChars | content_ingestion_worker/src/domain/services/extract_epub_content.rs:79-86 | a text event's bytes become one char each, in order |
| XmlEventChunker.Limit | content_ingestion_worker/src/domain/services/extract_epub_content.rs:34-45 | no `nb_words_per_yield` means 100 words |
| XmlEventChunker.PushedContent | content_ingestion_worker/src/domain/services/extract_epub_content.rs:98-139 | a pushed char keeps the counter equal to the reference word count, with no double space and no unwanted char |
| XmlEventChunker.PushCharKeeps | content_ingestion_worker/src/domain/services/extract_epub_content.rs:79-166 | one char keeps the invariant and the body depth, and preserves the visible text |
| XmlEventChunker.PushKeptChar | content_ingestion_worker/src/domain/services/extract_epub_content.rs:98-166 | a char the table does not skip keeps the invariant and adds itself to the visible text |
| XmlEventChunker.PushTextKeeps | content_ingestion_worker/src/domain/services/extract_epub_content.rs:78-90 | a text event inside body keeps the invariant and adds its text, '\n' dropped |
| XmlEventChunker.CloseTagKeeps | content_ingestion_worker/src/domain/services/extract_epub_content.rs:62-76 | closing a non-body tag inside body adds at most a space and keeps the invariant |
| XmlEventChunker.OnEventKeeps | content_ingestion_worker/src/domain/services/extract_epub_content.rs:55-90 | one event keeps the invariant and adds exactly the body text of that event |
| XmlEventChunker.BodyTextStep | content_ingestion_worker/src/domain/services/extract_epub_content.rs:55-64 | the body text of the events is that of the first event, then the rest read at the new body depth |
| XmlEventChunker.RunKeeps | content_ingestion_worker/src/domain/services/extract_epub_content.rs:47-176 | the event loop keeps the invariant, panics exactly on a parser error before Eof, and otherwise adds the body text |
| XmlEventChunker.FinishKeeps | content_ingestion_worker/src/domain/services/extract_epub_content.rs:177-184 | the final chunk, trailing space popped, keeps all chunks good and loses no text |
| XmlEventChunker.ExtractProperties | content_ingestion_worker/src/domain/services/extract_epub_content.rs:34-184 | every chunk has no '\n', no double space and no trailing space; the generator panics exactly on a parser error; otherwise a final chunk exists and the chunks' visible text is exactly the text inside body; the same code at `content_ingestion_service/src/domain/services/xml_extract_content.rs:33-185` behaves alike |
| XmlEventChunker.LimitYieldsContent | content_ingestion_worker/src/domain/services/extract_epub_content.rs:143-165 | reaching the limit pops a triggering space, yields the content, and resets counter, buffer and state; the same code at `content_ingestion_service/src/domain/services/xml_extract_content.rs:144-166` behaves alike |
| XmlEventChunker.EmptyDocumentYieldsEmptyContent | content_ingestion_worker/src/domain/services/extract_epub_content.rs:200-219 | empty input yields "" then Ok; the same code at `content_ingestion_service/src/domain/services/xml_extract_content.rs:227-255` behaves alike |
| XmlEventChunker.ExtractContent | content_ingestion_worker/src/domain/services/extract_epub_content.rs:34-184 | the generator's loop computes the fold and inherits its properties; the same code at `content_ingestion_service/src/domain/services/xml_extract_content.rs:33-185` behaves alike |
| ByteLengthChunker.Limit | src/domain/services/xml_extract_content.rs:8-16 | the default limit is 100 |
| ByteLengthChunker.Latin1Len | src/domain/services/xml_extract_content.rs:48-52 | a char made from one byte adds 1 or 2 bytes to a String, 1 when it is ASCII |
| ByteLengthChunker.AsciiLen | src/domain/services/xml_extract_content.rs:52 | for ASCII text, the byte length is the char count |
| ByteLengthChunker.PushedChunk | src/domain/services/xml_extract_content.rs:50-61 | a chunk cut at `len() >= n` has byte length n or n+1 |
| ByteLengthChunker.PushCharKeeps | src/domain/services/xml_extract_content.rs:48-61 | one char keeps pending content below the limit and every yielded chunk good, losing nothing |
| ByteLengthChunker.PushTextKeeps | src/domain/services/xml_extract_content.rs:48-63 | a text event adds exactly its text |
| ByteLengthChunker.RunKeeps | src/domain/services/xml_extract_content.rs:33-74 | the event loop panics exactly on a parser error and otherwise adds exactly the body text, tags adding no separator |
| ByteLengthChunker.ExtractProperties | src/domain/services/xml_extract_content.rs:12-78 | every non-final chunk has byte length n or n+1, exactly n for ASCII (n taken as 1 when 0); the final chunk is shorter; on a panic every chunk yielded so far is such a chunk; the chunks concatenate to the body text in document order |
| ByteLengthChunker.EmptyDocumentYieldsEmptyContent | src/domain/services/xml_extract_content.rs:94-111 | empty input yields "" then Ok |
| ByteLengthChunker.ExtractContent | src/domain/services/xml_extract_content.rs:12-78 | the generator's loop computes the fold and inherits its properties |
| TagStripper.Limit | src/domain/services/extract_content_generator.rs:76 | the default limit is 100 |
| TagStripper.CleanBeforeYield | src/domain/services/extract_content_generator.rs:246-254 | `clean_content_before_yield` removes exactly one trailing space, if there is one; the same code at `content_ingestion_service/src/use_cases/extract_epub_content_with_generator.rs:214-225` behaves alike |
| TagStripper.FlushedShape | src/domain/services/extract_content_generator.rs:107-116 | giving back a pending element as content keeps the content free of a leading space |
| TagStripper.StripKeeps | src/domain/services/extract_content_generator.rs:102-216 | one char keeps the stripper's shape: pending text starts with '<' while an element is possible, and the content has no leading space |
| TagStripper.CleanKeeps | src/domain/services/extract_content_generator.rs:246-254 | cleaning before a yield never adds a leading space or lengthens the content |
| TagStripper.CutKeeps | src/domain/services/extract_content_generator.rs:221-228 | the cut at the limit keeps the invariant |
| TagStripper.StepKeeps | src/domain/services/extract_content_generator.rs:102-229 | one char keeps the invariant |
| TagStripper.FeedKeeps | src/domain/services/extract_content_generator.rs:98-230 | any input keeps the invariant, and output never outgrows the input |
| TagStripper.FeedAppend | src/domain/services/extract_content_generator.rs:98-102 | reading lines one after another equals reading their concatenation, with no separator |
| TagStripper.OutsideBodyEmitsNothing | src/domain/services/extract_content_generator.rs:185-189 | outside body no char reaches the output or the counter |
| TagStripper.BodyCharCounted | src/domain/services/extract_content_generator.rs:189-215 | inside body a char is skipped exactly when the table skips it; otherwise it is appended and counted by the table, +1 after empty/space/special and +2 otherwise for a special char |
| TagStripper.SpaceCountPrefix | src/domain/services/extract_content_generator.rs:155-179 | the spaces counted in a prefix of a possible element never exceed those of the element |
| TagStripper.ReadTagName | src/domain/services/extract_content_generator.rs:155-182 | the chars of a tag name accumulate in the pending element |
| TagStripper.TagRemoved | src/domain/services/extract_content_generator.rs:117-182 | a recognised `<name>` element is removed without changing the counter or the yielded chunks; the body flag becomes true after `<body>`, false after `</body>` and stays otherwise; a space is added exactly when the body is open afterwards, the element is one of `p`, `h1`-`h6`, `li`, `ul`, `ol`, `blockquote`, and the content is non-empty and does not end in a space; the space counter returns to 0 in the corrected variant and, as written, keeps the earlier spaces plus the element's |
| TagStripper.TagKept | src/domain/services/extract_content_generator.rs:117-138 | an element with no space that neither opens nor closes the body and adds no space leaves the stripper exactly as it was |
| TagStripper.CloseBody | src/domain/services/extract_content_generator.rs:117-124 | `</body>` closes the body, emitting and counting nothing |
| TagStripper.OpenBody | src/domain/services/extract_content_generator.rs:117-122 | `<body>` opens the body with nothing emitted, for any positive limit |
| TagStripper.ElementAsWritten | src/domain/services/extract_content_generator.rs:117-138 | as written, closing an element with a space inside keeps the element's space counter |
| TagStripper.ElementsAsWritten | src/domain/services/extract_content_generator.rs:117-138 | as written, n such elements leave a counter of n |
| TagStripper.ElementLeaks | src/domain/services/extract_content_generator.rs:141-154 | once the counter passed 30, the next element is given back as content |
| TagStripper.LeakedElementAsWritten | src/domain/services/extract_content_generator.rs:117-154 | as written, the 31st element `<i b>` in a body shows up in the output |
| TagStripper.ElementsCorrected | src/domain/services/extract_content_generator.rs:117-154 | with the counter reset when an element ends, any number of elements leaves the output empty |
| TagStripper.ElementsDropped | src/domain/services/extract_content_generator.rs:117-138 | with the reset, for any positive limit, any number of `<i b>` elements is dropped and the stripper returns to the same state |
| TagStripper.CutVisible | src/domain/services/extract_content_generator.rs:221-228 | a yield loses nothing but the trailing space it pops: the text emitted so far, spaces dropped, is unchanged, and so is the element state |
| TagStripper.FinishVisible | src/domain/services/extract_content_generator.rs:231-235 | the final chunk, cleaned, holds the pending content but for the popped space |
| TagStripper.BodyCharTracked | src/domain/services/extract_content_generator.rs:95-97 | inside the body, a char that is not `<` is emitted, unless it is a space the table skips, and the body stays open with no element pending |
| TagStripper.BodyTextTracked | src/domain/services/extract_content_generator.rs:95-97 | body text with no element is emitted exactly, spaces aside, through any number of yields |
| TagStripper.BodyTextDelivered | src/domain/services/extract_content_generator.rs:95-97 | for `<body>` followed by text with no `<`, the chunks with spaces dropped are that text with spaces dropped: the chunks, with the popped spaces put back, are the text less the spaces the table skips |
| TagStripper.OutsideTextDropped | src/domain/services/extract_content_generator.rs:185-189 | text outside the body with no element leaves the stripper exactly as it was |
| TagStripper.WordCopied | src/domain/services/extract_content_generator.rs:189-215 | body text of a word with no space or special char joins the content and is not counted |
| TagStripper.PageHead | src/domain/services/extract_content_generator.rs:95-97 | a head of elements and text before `<body>` emits nothing and leaves the stripper in its initial state |
| TagStripper.ParagraphWord | src/domain/services/extract_content_generator.rs:117-215 | one word in a plain element at the start of the body is all that remains as content |
| TagStripper.PageBody | src/domain/services/extract_content_generator.rs:117-215 | a body holding one word in an element leaves that word as content after `</body>` and the closing element |
| TagStripper.OneLine | src/domain/services/extract_content_generator.rs:98-102 | a source of one line completes with the chunks the stripper leaves of that line |
| TagStripper.ExampleParts | src/domain/services/extract_content_generator.rs:285-293 | the documented page's head leaves the initial state, and its body leaves `Test` as content |
| TagStripper.DocumentFed | src/domain/services/extract_content_generator.rs:285-293 | the stripper leaves `Test` as content of the documented page, and yields nothing before the end |
| TagStripper.DocumentedExample | src/domain/services/extract_content_generator.rs:60-67 | `<html><head><title>Test</title></head><body><p>Test</p></body></html>` in one line yields exactly the chunk `Test`, then completes |
| TagStripper.FeedCuts | src/domain/services/extract_content_generator.rs:221-228 | chunks already yielded stay; one chunk is yielded per recorded cut, and each cut happened with the counter at or over the limit |
| TagStripper.FeedYieldRule | src/domain/services/extract_content_generator.rs:221-235 | over a whole text every chunk before the last was cut at a counter at or over the limit; the counter left at the end is below a positive limit, and with a limit of 0 the last chunk is empty |
| TagStripper.RunLinesFeeds | src/domain/services/extract_content_generator.rs:98-102 | reading the lines feeds their concatenated text, and a failing line panics |
| TagStripper.RunPullsFeeds | content_ingestion_service/src/use_cases/extract_epub_content_with_generator.rs:64-73 | chars are pulled until Ok(None), and an Err panics |
| TagStripper.FeedChunks | src/domain/services/extract_content_generator.rs:221-236 | yielded chunks and the final chunk have no leading space, and together are no longer than the input |
| TagStripper.ExtractFromLinesProperties | src/domain/services/extract_content_generator.rs:69-237 | panics exactly when a line fails, with the chunks cut so far; otherwise one final chunk follows them; every chunk but the final one was cut at a counter at or over the limit, the final counter is below a positive limit, and with a limit of 0 the final chunk is empty; chunks have no leading space and together are no longer than the input |
| TagStripper.LinesBodyTextDelivered | src/domain/services/extract_content_generator.rs:95-97 | lines reading `<body>` then text with no element, once completed, yield that text, spaces aside |
| TagStripper.ExtractFromPullsProperties | content_ingestion_service/src/use_cases/extract_epub_content_with_generator.rs:35-205 | panics exactly when a pull fails, with the chunks cut so far; otherwise one final chunk follows them; every chunk but the final one was cut at a counter at or over the limit, the final counter is below a positive limit, and with a limit of 0 the final chunk is empty; chunks have no leading space and together are no longer than the input |
| TagStripper.PullsBodyTextDelivered | content_ingestion_service/src/use_cases/extract_epub_content_with_generator.rs:35-205 | pulled chars reading `<body>` then text with no element, once completed, yield that text, spaces aside |
| TagStripper.EmptySourceYieldsEmptyContent | src/domain/services/extract_content_generator.rs:270-281 | empty input yields "" then completes |
| TagStripper.ProcessChar | src/domain/services/extract_content_generator.rs:102-229 | the per-char body computes one step of the fold |
| TagStripper.ExtractContentFromLines | src/domain/services/extract_content_generator.rs:69-237 | the line generator computes the fold and inherits its properties |
| TagStripper.ExtractContentFromPulls | content_ingestion_service/src/use_cases/extract_epub_content_with_generator.rs:35-205 | the pull generator computes the fold and inherits its properties |
| SinglePassStripper.StepKeeps | src/domain/extract_content.rs:52-110 | one char keeps the invariant and adds at most one char of output |
| SinglePassStripper.FeedKeeps | src/domain/extract_content.rs:52-110 | any input keeps the invariant and adds at most one output char per input char |
| SinglePassStripper.ExtractContentShorter | src/domain/extract_content.rs:52-110 | the output is never longer than the input |
| SinglePassStripper.FeedAppend | src/domain/extract_content.rs:52-110 | feeding a concatenation is feeding one part after the other |
| SinglePassStripper.OutsideBodyEmitsNothing | src/domain/extract_content.rs:65-69 | outside body nothing is emitted |
| SinglePassStripper.SecondOpeningGivesBack | src/domain/extract_content.rs:56-63 | a second `<` emits `<` plus the pending text |
| SinglePassStripper.OpeningThenSpaceDropped | src/domain/extract_content.rs:88-96 | `<` directly followed by a space drops both |
| SinglePassStripper.TextCopied | src/domain/extract_content.rs:107-109 | text without `<` is copied exactly when inside body |
| SinglePassStripper.ReadName | src/domain/extract_content.rs:98-105 | the chars of a tag name accumulate as pending text |
| SinglePassStripper.TagRemoved | src/domain/extract_content.rs:64-86 | a `<name>` tag emits nothing but a possible single space, and `body` / `/body` set the body flag |
| SinglePassStripper.ClosingNeedsNoSpace | src/domain/extract_content.rs:3-15 | no closing tag is among the elements needing a space |
| SinglePassStripper.Dropped | src/domain/extract_content.rs:64-86 | any other tag outside body leaves the stripper untouched |
| SinglePassStripper.HeadDropped | src/domain/extract_content.rs:64-86 | a head with a title emits nothing |
| SinglePassStripper.ParagraphKept | src/domain/extract_content.rs:72-79 | a paragraph inside body emits its text |
| SinglePassStripper.DocumentShape | src/domain/extract_content.rs:38-110 | any document of the test's shape gives back exactly its paragraph |
| SinglePassStripper.DocumentedExample | src/domain/extract_content.rs:126-130 | `<html><head><title>Test</title></head><body><p>Test</p></body></html>` gives "Test" |
| SinglePassStripper.Extract | src/domain/extract_content.rs:38-110 | the loop computes the fold, and the output is never longer than the input |
| XmlDocument.Spaces | content_ingestion_worker/src/domain/readers/xml_reader.rs:130-140 | the pending spaces from closing tags are that many ' ' |
| XmlDocument.NoBodyNoText | content_ingestion_worker/src/domain/readers/xml_reader.rs:429-467 | a document without `<body>` reads as "" |
| XmlReading.TitleText | content_ingestion_worker/src/domain/readers/xml_reader.rs:147-151 | the title is the decoded text of the event, "" when it is not UTF-8 |
| XmlReading.Scan | content_ingestion_worker/src/domain/readers/xml_reader.rs:80-162 | `go_next_content` only moves forward, returns 0 or the length of the chars it loaded, and keeps the metadata's keys |
| XmlReading.ScanMatchesDocument | content_ingestion_worker/src/domain/readers/xml_reader.rs:116-145 | successive `go_next_content` calls deliver exactly the document's body text, stop at the first non-empty non-single-space text, and fail exactly on a parser error |
| XmlReading.XmlReader.BuildFromReader | content_ingestion_worker/src/domain/readers/xml_reader.rs:46-61 | a new reader starts before the first event, outside body, with nothing loaded |
| XmlReading.XmlReader.UpdateMetadata | content_ingestion_worker/src/domain/readers/xml_reader.rs:165-173 | the key is inserted into the metadata and nothing else changes |
| XmlReading.XmlReader.GoNextContent | content_ingestion_worker/src/domain/readers/xml_reader.rs:80-162 | the reader moves to the state the scan reaches, resetting the char index |
| XmlReading.XmlReader.Read | content_ingestion_worker/src/domain/readers/xml_reader.rs:177-220 | writes the UTF-8 of the next chars, within `buf.len()`; loads the next content only when the current one is exhausted; a parser error becomes `InvalidData`; once it returns 0 or fails, the text read so far is the document's whole body text, whatever the buffer size (at least 4 bytes) |
| XmlReading.XmlReader.CurrentMetadata | content_ingestion_worker/src/domain/readers/xml_reader.rs:227-238 | the source's metadata with key "xml" set to the reader's metadata |
| LegacyXmlReading.Scan | content_ingestion_worker/src/domain/entities/xml_reader.rs:68-136 | `next_content` moves forward, and stops empty only at Eof |
| LegacyXmlReading.ScanMatchesDocument | content_ingestion_worker/src/domain/entities/xml_reader.rs:87-125 | successive `next_content` calls deliver exactly the document's body text, skip empty and single-space text, and fail exactly on a parser error |
| LegacyXmlReading.LastTagIsLast | content_ingestion_worker/src/domain/entities/xml_reader.rs:87-97 | the remembered tag is opened by an earlier event, and no later event before the reader's position opens an element other than `<body>`; with no remembered tag, no such element was opened |
| LegacyXmlReading.ScanKeepsLastTag | content_ingestion_worker/src/domain/entities/xml_reader.rs:68-136 | `next_content` sets `current_meta` on every opening of an element other than `<body>` and on nothing else, so the tag it keeps stays the last one opened |
| LegacyXmlReading.LegacyXmlReader.BuildFromReader | content_ingestion_worker/src/domain/entities/xml_reader.rs:36-50 | a new reader starts before the first event with nothing loaded |
| LegacyXmlReading.LegacyXmlReader.NextContent | content_ingestion_worker/src/domain/entities/xml_reader.rs:68-136 | the reader moves to the state the scan reaches, resetting the char index |
| LegacyXmlReading.LegacyXmlReader.Read | content_ingestion_worker/src/domain/entities/xml_reader.rs:140-179 | writes whole UTF-8 chars within `buf.len()`; a parser error becomes `InvalidData`; once it ends, everything read is the document's body text |
| LegacyXmlReading.LegacyXmlReader.CurrentReadMeta | content_ingestion_worker/src/domain/entities/xml_reader.rs:186-192 | combines the source's meta with the name of the last element other than `<body>` opened by the events read so far, inside the body or not, or none when there is no such element (the class invariant ties the stored tag to `LastTag`) |
| EpubSpine.GoNext | content_ingestion_worker/src/domain/entities/epub_reader.rs:105-106 | `go_next` moves one chapter forward, and sticks on the last |
| EpubSpine.Advance | content_ingestion_worker/src/domain/entities/epub_source_reader.rs:101-120 | the next chapter is loaded exactly when it has text and its id differs from the previous one; loading records its id |
| EpubSpine.DeliveredAfter | content_ingestion_worker/src/domain/entities/epub_source_reader.rs:101-120 | after chapter k, the chapters k+1, … are each delivered once, in order |
| EpubSpine.AdvanceAccounted | content_ingestion_worker/src/domain/entities/epub_source_reader.rs:101-120 | each load accounts for exactly the next chapter still to be delivered |
| EpubSpine.FirstChapterSkipped | content_ingestion_worker/src/domain/entities/epub_reader.rs:105-106 | as written, a reader that calls `go_next` before loading delivers chapters 1… and never chapter 0 |
| EpubSpine.SingleChapterRepeated | content_ingestion_worker/src/domain/entities/epub_source_reader.rs:76-113 | as written, a one-chapter book is delivered twice |
| EpubSpine.EveryChapterOnce | content_ingestion_worker/src/domain/entities/epub_source_reader.rs:76-120 | when opening records the first chapter's id, every chapter is delivered exactly once, in order |
| EpubSpine.TryNew | content_ingestion_worker/src/domain/entities/epub_source_reader.rs:41-88 | each document error maps to its own error; a missing first content gives `NoContent`; otherwise the first chapter's chars; the same code at `content_ingestion_service/src/adapters/epub_source_buffer.rs:32-75` behaves alike |
| EpubReading.ChapterMeta | content_ingestion_worker/src/domain/entities/epub_reader.rs:126-137 | loading a chapter sets chapter_path, chapter_number, chapters_size and chapter_id, keeping the other keys |
| EpubReading.EpubReader.constructor | content_ingestion_worker/src/domain/entities/epub_reader.rs:64-86 | starts at spine position 0 with nothing loaded and the normalised initial metadata |
| EpubReading.EpubReader.Read | content_ingestion_worker/src/domain/entities/epub_reader.rs:102-179 | delivers the current chapter before loading the next; returns 0 when `go_next` finds nothing new; writes whole chars within `buf.len()` |
| EpubReading.EpubReader.LoadNextChapter | content_ingestion_worker/src/domain/entities/epub_reader.rs:105-149 | a load replaces the chars, resets the index to 0, and updates the metadata |
| EpubReading.EpubReader.CurrentReadMeta | content_ingestion_worker/src/domain/entities/epub_reader.rs:233-246 | {"epub": metadata} |
| EpubSource.EpubSourceReader.Opened | content_ingestion_worker/src/domain/entities/epub_source_reader.rs:76-87 | the reader starts on the first chapter's chars, without `go_next` and with an empty previous id |
| EpubSource.EpubSourceReader.Read | content_ingestion_worker/src/domain/entities/epub_source_reader.rs:93-150 | delivers the current chapter before loading the next; ends with 0 when there is no text or the id repeats; writes whole chars within `buf.len()` |
| EpubSource.EpubSourceReader.LoadNextChapter | content_ingestion_worker/src/domain/entities/epub_source_reader.rs:101-120 | a load replaces the chars, resets the index to 0 and records the id |
| EpubSource.OneChapterLoadedTwice | content_ingestion_worker/src/domain/entities/epub_source_reader.rs:76-120 | a reader opened on a one-chapter book loads that chapter twice |
| EpubBuffer.NextChar | content_ingestion_service/src/adapters/epub_source_buffer.rs:103-122 | `next` advances the index before the lookup and reloads and recurses when the content is exhausted |
| EpubBuffer.StreamAsWritten | content_ingestion_service/src/adapters/epub_source_buffer.rs:93-115 | as written, the stream is each loaded content without its first char |
| EpubBuffer.OneChapterAsWritten | content_ingestion_service/src/adapters/epub_source_buffer.rs:56-122 | as written, a one-chapter book "ab" streams "bb" |
| EpubBuffer.StreamCorrectedWhole | content_ingestion_service/src/adapters/epub_source_buffer.rs:103-122 | with the lookup before the increment, the stream is the rest of the current content then every following chapter |
| EpubBuffer.CorrectedStreamIsWholeBook | content_ingestion_service/src/adapters/epub_source_buffer.rs:56-122 | corrected, the stream is the whole book, every chapter once |
| EpubBuffer.EpubSourceBuffer.Opened | content_ingestion_service/src/adapters/epub_source_buffer.rs:56-74 | the buffer starts on the first content at index 0 with an empty previous id |
| EpubBuffer.EpubSourceBuffer.NextContent | content_ingestion_service/src/adapters/epub_source_buffer.rs:77-99 | Ended when there is no text or the id repeats; otherwise the chars are replaced, the index is reset to 0 and the id is recorded |
| EpubBuffer.EpubSourceBuffer.Next | content_ingestion_service/src/adapters/epub_source_buffer.rs:103-122 | returns the char the stream model gives, always with page 0, and None once the book has ended |
| PdfReading.NextPage | content_ingestion_worker/src/domain/readers/pdf_reader.rs:86-107 | pages are visited forward from 1, never past the last; empty pages are skipped; on success metadata "page" is the delivered page; an extraction error names that page |
| PdfReading.NextPageMatchesText | content_ingestion_worker/src/domain/readers/pdf_reader.rs:86-107 | successive page loads deliver exactly the non-empty page texts in page order |
| PdfReading.PagesWithText | content_ingestion_worker/src/domain/readers/pdf_reader.rs:91-98 | the pages delivered are strictly increasing, within the document, each with text |
| PdfReading.ThreePages | content_ingestion_worker/src/domain/readers/pdf_reader.rs:182-232 | the three-page document is read as pages 1, 2, 3 in order |
| PdfReading.PdfReader.Loaded | content_ingestion_worker/src/domain/readers/pdf_reader.rs:48-78 | a new reader is on page 0 with nothing loaded and the normalised initial metadata |
| PdfReading.PdfReader.UpdateMetadata | content_ingestion_worker/src/domain/readers/pdf_reader.rs:110-118 | the key is inserted into the metadata and nothing else changes |
| PdfReading.PdfReader.GoNextContent | content_ingestion_worker/src/domain/readers/pdf_reader.rs:86-107 | the reader moves to the page `NextPage` finds |
| PdfReading.PdfReader.Read | content_ingestion_worker/src/domain/readers/pdf_reader.rs:123-167 | writes whole chars within `buf.len()`; returns 0 once no page with text remains; metadata "page" is the page being delivered; once it ends, everything read is the document's text |
| PdfReading.PdfReader.CacheNextPage | content_ingestion_worker/src/domain/readers/pdf_reader.rs:126-138 | loads the next page with text when the current one is exhausted |
| PdfReading.PdfReader.CurrentMetadata | content_ingestion_worker/src/domain/readers/pdf_reader.rs:171-173 | {"pdf": metadata} |
| SimpleMetadata.New | content_ingestion_worker/src/domain/entities/simple_metadata_reader.rs:19-28 | None or Null stores Null, an object is stored as-is, any other value becomes {"default_key": v} |
| SimpleMetadata.CurrentMetadata | content_ingestion_worker/src/domain/entities/simple_metadata_reader.rs:32-34 | {"simple": metadata} |
| SimpleMetadata.Read | content_ingestion_worker/src/domain/entities/simple_metadata_reader.rs:38-40 | forwards to the inner reader and leaves the metadata unchanged |
| SimpleMetadata.ReadAllInOrder | content_ingestion_worker/src/domain/entities/simple_metadata_reader.rs:38-40 | successive reads hand out the inner bytes in order, without loss, and the metadata never changes |
| SentenceSplitter.LeadingSpaceSpec | embedding_worker/src/domain/services/helpers.rs:14 | `\s*` takes all the leading whitespace and nothing else |
| SentenceSplitter.UntilTerminatorSpec | embedding_worker/src/domain/services/helpers.rs:14 | `[^.!?]*` stops exactly at the first terminator |
| SentenceSplitter.LongerThanOneByteIsLen | embedding_worker/src/domain/services/helpers.rs:18 | the filter keeps exactly the sentences whose UTF-8 length exceeds 1 |
| SentenceSplitter.SplitSentences | embedding_worker/src/domain/services/helpers.rs:11-20 | every returned sentence is longer than one byte |
| SentenceSplitter.Keep | embedding_worker/src/domain/services/helpers.rs:16-19 | the filter keeps only sentences longer than one byte |
| SentenceSplitter.KeptAtOrdered | embedding_worker/src/domain/services/helpers.rs:16-19 | the kept sentences come from strictly increasing matches, so they are in input order and do not overlap |
| SentenceSplitter.KeepKeepsLong | embedding_worker/src/domain/services/helpers.rs:18 | every sentence longer than one byte is returned |
| SentenceSplitter.FirstMatchCovers | embedding_worker/src/domain/services/helpers.rs:14 | a match is leading whitespace, then a sentence, then the rest of the input |
| SentenceSplitter.ScanCovers | embedding_worker/src/domain/services/helpers.rs:16 | the successive matches cover the input exactly, in order |
| SentenceSplitter.ScanShape | embedding_worker/src/domain/services/helpers.rs:14 | each sentence has no terminator except its last char, and every match but the last ends in a terminator |
| SentenceSplitter.ScanDecomposes | embedding_worker/src/domain/services/helpers.rs:14-16 | the scanner's matches are such a decomposition |
| SentenceSplitter.ScanUnique | embedding_worker/src/domain/services/helpers.rs:14-16 | the decomposition is unique: any split into whitespace-then-sentence pieces of that shape is the scanner's |
| SentenceSplitter.ScanAfterTerminator | embedding_worker/src/domain/services/helpers.rs:14-16 | after a terminator the matches restart independently |
| SentenceSplitter.OneSentence | embedding_worker/src/domain/services/helpers.rs:26-31 | an unterminated sentence is returned whole |
| SentenceSplitter.FourSentences | embedding_worker/src/domain/services/helpers.rs:33-45 | "Hello world. My name is Alex! Is this a test ?The end" gives the four sentences of the test |
| SentenceSplitter.RepeatedTerminators | embedding_worker/src/domain/services/helpers.rs:48-56 | "Hello world... Is this a test???The end..." gives "Hello world.", "Is this a test?", "The end." |
| Broker.Connection.CreateChannel | common/src/core/rabbitmq_message_repository.rs:98 | a channel is created and logged, or the failure changes nothing |
| Broker.Connection.ExchangeDeclare | common/src/core/rabbitmq_message_repository.rs:102-115 | a declaration is logged, or the failure changes nothing |
| Broker.Connection.BasicConsume | common/src/core/rabbitmq_message_repository.rs:212-222 | a consumer is logged, or the failure changes nothing |
| Broker.Connection.BasicPublish | common/src/core/rabbitmq_message_repository.rs:149-169 | a publish is logged with exchange, routing key, data and reply-to, or the failure changes nothing |
| RabbitMQRepository.New | common/src/core/rabbitmq_message_repository.rs:68-73 | `new` is Idle with the given connection and exchange name |
| RabbitMQRepository.Clone | common/src/core/rabbitmq_message_repository.rs:41-57 | a clone of Idle or Ready is a fresh Idle on the same connection and exchange |
| RabbitMQRepository.Gate | common/src/core/rabbitmq_message_repository.rs:143-147 | Idle is refused with `NotInitialized`; Ready gives its channel |
| RabbitMQRepository.TryInit | common/src/core/rabbitmq_message_repository.rs:82-129 | Ready is returned unchanged; Idle creates a channel and declares the exchange durable Topic, becoming Ready on the same connection and exchange, or fails |
| RabbitMQRepository.Publish | common/src/core/rabbitmq_message_repository.rs:137-172 | Idle gives `NotInitialized` with no broker effect; Ready publishes to the stored exchange with the routing key |
| RabbitMQRepository.RpcCall | common/src/core/rabbitmq_message_repository.rs:192-257 | Idle gives `NotInitialized`; Ready registers the reply consumer before publishing with reply-to "amq.rabbitmq.reply-to" |
| RabbitMQRepository.RpcReply | common/src/core/rabbitmq_message_repository.rs:239-254 | the first reply's data, or `RpcCallIncorrectResponse` when the stream ends or errors |
| RabbitMQRepository.RpcRespond | common/src/core/rabbitmq_message_repository.rs:265-295 | Idle gives `NotInitialized`; Ready publishes on the default exchange "" with the reply-to as routing key |
| MessageRepository.ChannelContainer.constructor | embedding_worker/src/repositories/message_rabbitmq_repository.rs:150-152 | a new container holds no channel |
| MessageRepository.ChannelContainer.GetChannel | embedding_worker/src/repositories/message_rabbitmq_repository.rs:154-169 | creates a channel only when none is stored and then keeps it; a failure leaves the container empty |
| MessageRepository.MessageRabbitMQRepository.constructor | embedding_worker/src/repositories/message_rabbitmq_repository.rs:50-56 | `new` keeps connection and exchange name with an empty container |
| MessageRepository.MessageRabbitMQRepository.Clone | embedding_worker/src/repositories/message_rabbitmq_repository.rs:33-39 | a clone has the same connection and exchange name and a fresh empty container |
| MessageRepository.MessageRabbitMQRepository.TryInit | embedding_worker/src/repositories/message_rabbitmq_repository.rs:65-91 | on an empty container a new channel is always opened (or the creation error returned, touching nothing); an existing channel is reused without opening another; the exchange is then declared durable Topic on that channel, or the declaration error returned |
| MessageRepository.MessageRabbitMQRepository.Publish | embedding_worker/src/repositories/message_rabbitmq_repository.rs:99-122 | on an empty container a new channel is always opened (or the creation error returned, touching nothing); an existing channel is reused; exactly one publish to the repository's exchange is logged on that channel, or the publish error returned |
| SourceMeta.FromStr | rest_gateway/src/domain/entities/source_meta.rs:16-19 | Ok exactly for "epub"; any other string, "EPUB" included, gives "Invalid SourceType: " + s; the same code at `content_ingestion_service/src/domain/entities/source_meta.rs:15-19` behaves alike |
| SourceMeta.FromStrName | rest_gateway/src/domain/entities/source_meta.rs:16-19 | the name of a type parses back to it, and a parsed type names its input |
| SourceMeta.FromStrCaseSensitive | rest_gateway/src/domain/entities/source_meta.rs:19 | "EPUB" is refused |
| SourceMeta.ToDto | rest_gateway/src/domain/entities/source_meta.rs:24-30 | Epub converts to the Epub DTO |
| SourceMeta.Build | rest_gateway/src/domain/entities/source_meta.rs:33-51 | the builder gives the fresh id, `added_at` = now and no `extracted_at`; the same code at `content_ingestion_service/src/domain/entities/source_meta.rs:32-49` behaves alike |
| UploadPath.LastSegment | rest_gateway/src/controllers/add_source_files.rs:123-150 | the part after the last '/' |
| UploadPath.FileName | rest_gateway/src/controllers/add_source_files.rs:123-150 | a file name is non-empty, has no '/', and is neither "." nor ".." |
| UploadPath.LastDot | rest_gateway/src/controllers/add_source_files.rs:123-150 | the position of the last '.' |
| UploadPath.Extension | rest_gateway/src/controllers/add_source_files.rs:123-150 | an extension is the text after the file name's last dot, when that dot is not the first char |
| UploadPath.ExtensionAfterLastDot | rest_gateway/src/controllers/add_source_files.rs:123-150 | the text after a non-leading last dot is the extension |
| UploadPath.ExtensionOfBook | rest_gateway/src/controllers/add_source_files.rs:123-150 | "book.epub" has extension "epub" |
| UploadPath.ExtensionOfDotFile | rest_gateway/src/controllers/add_source_files.rs:123-150 | ".epub" has no extension |
| UploadPath.ExtensionOfPlainName | rest_gateway/src/controllers/add_source_files.rs:123-150 | "book" has no extension |
| AddSourceFiles.StatusCode | rest_gateway/src/controllers/add_source_files.rs:43-52 | `NoSourceFiles` maps to 400 and every other error to 500 |
| AddSourceFiles.Validate | rest_gateway/src/controllers/add_source_files.rs:110-165 | a file passes exactly when it has a name with extension "epub"; otherwise an Error status with the same file name and a message |
| AddSourceFiles.Step | rest_gateway/src/controllers/add_source_files.rs:104-238 | a refused file gives an Error status and touches nothing; a valid one gives its expected status or a request error, never `NoSourceFiles` |
| AddSourceFiles.Store | rest_gateway/src/controllers/add_source_files.rs:173-237 | a stored file gives a Success status after upload, commit and publish; each failure aborts with its error |
| AddSourceFiles.Steps | rest_gateway/src/controllers/add_source_files.rs:104-238 | one step per file, none of them `NoSourceFiles` |
| AddSourceFiles.Handle | rest_gateway/src/controllers/add_source_files.rs:100-102 | an empty form, and only an empty form, fails with `NoSourceFiles`, touching nothing |
| AddSourceFiles.OneStatusPerFile | rest_gateway/src/controllers/add_source_files.rs:104-237 | a successful response has one status per file, in input order |
| AddSourceFiles.RunStopsAtError | rest_gateway/src/controllers/add_source_files.rs:173-231 | a storage or broker error aborts the whole request |
| AddSourceFiles.StoreEffects | rest_gateway/src/controllers/add_source_files.rs:178-231 | the upload comes first; the committed meta names the uploaded object and the user; the job carries the saved path |
| AddSourceFiles.StepEffects | rest_gateway/src/controllers/add_source_files.rs:173-231 | every file's effects start with the upload, and a job is sent only after its commit |
| AddSourceFiles.JobsFollowCommits | rest_gateway/src/controllers/add_source_files.rs:189-231 | in the whole request every job is sent right after its meta's commit and carries that meta's id; every stored meta is a fresh Epub |
| AddSourceFiles.EveryFileStored | rest_gateway/src/controllers/add_source_files.rs:104-237 | when every file is valid and every step succeeds, the request succeeds with three effects per file |
| AddSourceFiles.StepSucceeds | rest_gateway/src/controllers/add_source_files.rs:173-237 | a valid file whose storage steps all succeed is stored, committed and sent |
| AddSourceFiles.RefusedFilesTouchNothing | rest_gateway/src/controllers/add_source_files.rs:110-165 | a form of refused files succeeds with error statuses and no storage or broker effect |
| AddSourceFiles.MessagesAppend | rest_gateway/src/controllers/add_source_files.rs:225-231 | the published messages of two effect runs are those of each, in order |
| AddSourceFiles.AddSourceFilesHandler | rest_gateway/src/controllers/add_source_files.rs:85-241 | the handler's loop computes `Handle`, and the broker log grows by exactly the jobs it sent, on the repository's exchange |
| AddSourceFiles.HandleFile | rest_gateway/src/controllers/add_source_files.rs:106-238 | one iteration computes that file's step |
| AddSourceFiles.StoreFile | rest_gateway/src/controllers/add_source_files.rs:173-237 | the storage part of one iteration computes `Store` and publishes at most the one job |
| ServiceConfiguration.AsStr | content_ingestion_service/src/configuration.rs:150-156 | the names are lower case |
| ServiceConfiguration.TryFrom | content_ingestion_service/src/configuration.rs:161-168 | accepts exactly "local" and "production" after lowering, and names the lowered input in the error |
| ServiceConfiguration.TryFromAsStr | content_ingestion_service/src/configuration.rs:149-171 | `try_from(as_str(e)) == e` |
| ServiceConfiguration.TryFromIgnoresCase | content_ingestion_service/src/configuration.rs:161-164 | parsing ignores case |
| ServiceConfiguration.SelectEnvironment | content_ingestion_service/src/configuration.rs:119-123 | an unset APP_ENVIRONMENT means local |
| ServiceConfiguration.SettingsFileName | content_ingestion_service/src/configuration.rs:119-123 | the settings file is "<env>.yaml", and its stem parses back to the environment |
| ServiceConfiguration.WithoutDb | content_ingestion_service/src/configuration.rs:38-51 | the SSL mode is Require exactly when `require_ssl`, otherwise Prefer |
| ServiceConfiguration.WithDb | content_ingestion_service/src/configuration.rs:53-55 | the same options plus the database name |
| ServiceConfiguration.ObjectStorageEndpoint | content_ingestion_service/src/configuration.rs:74-77 | "http://host:port" |
| ServiceConfiguration.RabbitMQUri | content_ingestion_service/src/configuration.rs:91-93 | "amqp://host:port" |
| ServiceConfiguration.ObjectStorageEndpointInjective | content_ingestion_service/src/configuration.rs:74-77 | the endpoint determines host and port |
| ServiceConfiguration.RabbitMQUriInjective | content_ingestion_service/src/configuration.rs:91-93 | the URI determines host and port |
| WorkerConfiguration.AsStr | content_ingestion_worker/src/configuration.rs:127-134 | the names are lower case |
| WorkerConfiguration.TryFrom | content_ingestion_worker/src/configuration.rs:139-147 | accepts exactly "develop", "local" and "production" after lowering; otherwise an error naming the input |
| WorkerConfiguration.TryFromAsStr | content_ingestion_worker/src/configuration.rs:126-150 | `try_from(as_str(e)) == e` |
| WorkerConfiguration.TryFromIgnoresCase | content_ingestion_worker/src/configuration.rs:139-143 | parsing ignores case |
| WorkerConfiguration.SelectEnvironment | content_ingestion_worker/src/configuration.rs:95-99 | the default environment is develop |
| WorkerConfiguration.SettingsFileName | content_ingestion_worker/src/configuration.rs:95-99 | the settings file is "<env>.yaml" |
| WorkerConfiguration.ObjectStorageEndpoint | content_ingestion_worker/src/configuration.rs:35-38 | "http://host:port" |
| WorkerConfiguration.RabbitMQUri | content_ingestion_worker/src/configuration.rs:52-54 | "amqp://host:port" |
| WorkerConfiguration.MeilisearchEndpoint | content_ingestion_worker/src/configuration.rs:75-78 | "http://host:port" |
| WorkerConfiguration.ObjectStorageEndpointInjective | content_ingestion_worker/src/configuration.rs:35-38 | the endpoint determines host and port |
| WorkerConfiguration.RabbitMQUriInjective | content_ingestion_worker/src/configuration.rs:52-54 | the URI determines host and port |
| WorkerConfiguration.MeilisearchEndpointInjective | content_ingestion_worker/src/configuration.rs:75-78 | the endpoint determines host and port |
| TemplateConfiguration.AsStr | template_service_kafka_grpc/src/configuration.rs:94-101 | the three names are lower case |
| TemplateConfiguration.TryFrom | template_service_kafka_grpc/src/configuration.rs:106-114 | accepts exactly the three names after lowering; otherwise an error |
| TemplateConfiguration.TryFromAsStr | template_service_kafka_grpc/src/configuration.rs:93-117 | `try_from(as_str(e)) == e` |
| TemplateConfiguration.TryFromIgnoresCase | template_service_kafka_grpc/src/configuration.rs:106-110 | parsing ignores case |
| TemplateConfiguration.SelectEnvironment | template_service_kafka_grpc/src/configuration.rs:64-68 | the default environment is develop |
| TemplateConfiguration.SettingsFileName | template_service_kafka_grpc/src/configuration.rs:64-68 | the settings file is "<env>.yml" |
| TemplateConfiguration.MeilisearchEndpoint | template_service_kafka_grpc/src/configuration.rs:43-46 | "http://host:port" |
| TemplateConfiguration.MeilisearchEndpointInjective | template_service_kafka_grpc/src/configuration.rs:43-46 | the endpoint determines host and port |

## Left out

- Generators are modelled as whole runs over a finite input: the methods return every yielded chunk and the completion. Laziness, pinning and resumption are not modelled.
- I/O of every kind is replaced by values:
  - file and archive opening;
  - `BufRead::lines`;
  - quick_xml parsing, lopdf extraction and the `epub` crate;
  - S3 uploads, Postgres transactions and lapin calls.

  The readers take the parsed events, chapters or page texts. Failures are explicit inputs.
- EpubReading.EpubReader.constructor: takes an already opened spine, so the `EpubReaderError` raised when the archive cannot be opened is not modelled.
- PdfReading.PdfReader.Loaded: takes the extracted page texts, so the lopdf load failure of `try_from_reader` is not modelled.
- Clock, UUID generation, the broker's routing key constant, the `serde_json` serialisation of a job, and S3/Postgres results are parameters of `AddSourceFiles` (one `Outcome` per file). Nothing rolls back after a failure, as in the source.
- XmlReading.TitleText: the title is stored as decoded raw text; quick_xml's entity unescaping is not modelled.
- Entity text in the XML chunkers is kept raw (`&lt;` stays `&lt;`), as in the source. The test stating this is not restated as a lemma.
- The XML body depth is an unbounded `int`. The `usize` underflow the source would hit on an unmatched `</body>` is not modelled, because quick_xml rejects mismatched end tags.
- `to_lowercase` is modelled on ASCII letters only. Non-ASCII case folding is left out.
- AddSourceFiles.Validate: file names are Dafny strings. So the "No unicode representation" branch, which fires on a non-UTF-8 `OsStr`, cannot occur and is not modelled.
- The sentence regex's final empty match at the end of the content is not produced by the scanner. It would be filtered out by the length test anyway.
- The concrete multi-chunk test vectors are not restated as lemmas. These are:
  - the limit-8 samples with five chunks;
  - "Test Ok - how" / "are you?";
  - the multiline and no-body reader samples;
  - "Test in BodyAnother text inside link";
  - "Test <partOfContent < partOfContentToo <ok".

  The one-chunk page `<html><head><title>Test</title></head><body><p>Test</p></body></html>` is proved (TagStripper.DocumentedExample). The rules behind the others are proved for all inputs instead: the word table, the cut at the limit, the trailing-space pop, tag removal and the literal `<` cases.
- The reader tests comparing a 10-byte buffer with a large one are covered by the `Read` contracts: whenever a read ends, the text read is the whole document text, for any buffer of at least 4 bytes. Buffers shorter than 4 bytes can stall on a wide char, as in the source.
- Debug/Display formats, logging, `get_connection_properties`, the RPC timeout, password and secret fields, and the file reading of `get_configuration` are left out. The environment selection and settings file name are modelled.
- RabbitMQRepository.Publish, RabbitMQRepository.RpcCall, RabbitMQRepository.RpcRespond and MessageRepository.MessageRabbitMQRepository.Publish: the message properties set on every publish are not modelled, since `Broker.Published` carries neither of them. These are the `timestamp` taken from the clock and the fresh `message_id` UUID.
- TagStripper.BodyTextDelivered, TagStripper.LinesBodyTextDelivered and TagStripper.PullsBodyTextDelivered: stated for a positive limit and body text with no `<`. They compare the texts with spaces dropped. Which spaces are skipped and which are popped is stated char by char, by TagStripper.BodyCharCounted and TagStripper.CutVisible, not over the whole text.
- TagStripper.OpenBody, TagStripper.ElementsDropped and the documented-example lemmas are stated for a positive limit. With a limit of 0 each char of an element yields an empty chunk.
- MessageRepository.ChannelContainer.GetChannel: the `ChannelInternalError` branch unwraps a channel that was just stored, so it cannot be reached and is not modelled.
- An XML parser error panics in the event chunkers and tag strippers. It is modelled as the `Panicked` completion.

## Findings

| source | as written | input that shows it | evidently intended | confidence | as-written member | corrected member |
|---|---|---|---|---|---|---|
| src/domain/services/extract_content_generator.rs:117-179 | the space counter of a possible element is reset on a second `<` and on the over-30 flush, but not when the element ends at `>` or is given back on a space | `<body>` followed by 31 copies of `<i b>`: the 31st element is emitted as text `<i b>` | every element ends with a fresh counter, so well-formed tags are always removed | not executed; high | TagStripper.LeakedElementAsWritten | TagStripper.ElementsCorrected |
| content_ingestion_worker/src/domain/entities/epub_reader.rs:105-106 | `go_next` is called before the first chapter is loaded | any book with at least two chapters: chapter 0 is never read | the first chapter is read, then `go_next` | not executed; medium | EpubSpine.FirstChapterSkipped | EpubSpine.EveryChapterOnce |
| content_ingestion_worker/src/domain/entities/epub_source_reader.rs:76-113 | opening loads chapter 0 but leaves the previous id empty, and `go_next` sticks on the last chapter | a one-chapter book: its text is delivered twice | opening records the first chapter's id, so every chapter is delivered once | not executed; high | EpubSource.OneChapterLoadedTwice | EpubSpine.EveryChapterOnce |
| content_ingestion_service/src/adapters/epub_source_buffer.rs:104-106 | `next` increments the index before reading the char | a one-chapter book "ab" streams "bb" (first char of each load skipped, chapter repeated) | read the char at the index, then increment | not executed; high | EpubBuffer.OneChapterAsWritten | EpubBuffer.CorrectedStreamIsWholeBook |

How the corrected behaviour is used:

- The tag strippers' fold takes a `Variant`, and every general invariant and
  generator contract is proved for both variants.
- The EPUB readers and the buffer keep the code's starting state and
  `next`, so that their classes match the source. The corrected delivery
  order (`EpubSpine.EveryChapterOnce`) and the corrected stream
  (`EpubBuffer.StreamCorrected`) are the definitions proved correct beside
  them.
