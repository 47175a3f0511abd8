/**
 * The hand-rolled HTML stripper with a word counter that two generators
 * share char for char: the root `extract_content_generator` (over the lines
 * of a `BufRead`) and the service use case `extract_epub_content_with_generator`
 * (over the chars a `SourceBufferPort` hands out). A `<` opens a possible
 * element; the element is dropped at `>`, or given back as content on a
 * second `<`, on a space right after `<` or after another space, or once
 * more than 30 spaces were counted.
 */
module TagStripper {
  import opened Wrappers
  import opened WordCount
  import opened TextFilter
  import opened XmlEvents

  const DEFAULT_NB_WORDS_PER_YIELD: nat := 100
  const LIMIT_NB_WORDS_IN_HTML_ELEMENT: nat := 30

  /** The opening elements after which a space separates the text. */
  const HTML_ELEMENTS_NEEDING_A_SPACE: set<string> :=
    {"<p", "<h1", "<h2", "<h3", "<h4", "<h5", "<h6", "<li", "<ul", "<ol", "<blockquote"}

  /**
   * The code as written keeps the space counter of a possible element when
   * that element ends at `>` or is given back on a space; the corrected
   * variant resets it there, as every other branch that ends an element does.
   */
  datatype Variant = AsWritten | Corrected

  datatype Stripper = Stripper(
    content: string,
    insideBody: bool,
    mightBeTag: bool,
    pending: string,
    pendingSpaces: nat,
    nbWords: nat,
    yielded: seq<string>)

  const Initial: Stripper := Stripper("", false, false, "", 0, 0, [])

  function Limit(nbWordsPerYield: Option<nat>): (limit: nat)
    ensures nbWordsPerYield.None? ==> limit == 100
    ensures nbWordsPerYield.Some? ==> limit == nbWordsPerYield.value
  {
    if nbWordsPerYield.Some? then nbWordsPerYield.value else DEFAULT_NB_WORDS_PER_YIELD
  }

  predicate EndsWith(s: string, c: char)
  {
    |s| > 0 && s[|s| - 1] == c
  }

  predicate EndsWithSpecial(s: string)
  {
    |s| > 0 && IsSpecial(s[|s| - 1])
  }

  /** `clean_content_before_yield`: drops one trailing space. */
  function CleanBeforeYield(content: string): (r: string)
    ensures EndsWith(content, ' ') ==> r + [' '] == content
    ensures !EndsWith(content, ' ') ==> r == content
  {
    if EndsWith(content, ' ') then content[..|content| - 1] else content
  }

  /** The counter after giving back the possible element as content. */
  function Flushed(s: Stripper, text: string): Stripper
  {
    if s.insideBody then s.(content := s.content + text, nbWords := s.nbWords + s.pendingSpaces + 1)
    else s
  }

  /** The body flag once the possible element `element`, `<` included, ends at `>`. */
  function BodyAfter(insideBody: bool, element: string): bool
  {
    if element == "<body" then true else if element == "</body" then false else insideBody
  }

  /** Whether ending `element` at `>` adds a space, given the body flag it leaves. */
  predicate SpaceAfter(content: string, insideBody: bool, element: string)
  {
    insideBody && element in HTML_ELEMENTS_NEEDING_A_SPACE && |content| > 0 && !EndsWith(content, ' ')
  }

  function KeptSpaces(s: Stripper, v: Variant): nat
  {
    if v == Corrected then 0 else s.pendingSpaces
  }

  /** What one char does, before the yield check. */
  function Strip(s: Stripper, c: char, v: Variant): Stripper
  {
    if s.mightBeTag then
      if c == '<' then
        Flushed(s, s.pending).(pendingSpaces := 0, pending := "<")
      else if c == '>' then
        var body := BodyAfter(s.insideBody, s.pending);
        s.(insideBody := body, content := if SpaceAfter(s.content, body, s.pending) then s.content + " " else s.content,
           mightBeTag := false, pending := "", pendingSpaces := KeptSpaces(s, v))
      else if s.pendingSpaces > LIMIT_NB_WORDS_IN_HTML_ELEMENT then
        Flushed(s, s.pending + [c]).(pendingSpaces := 0, mightBeTag := false, pending := "")
      else if c == ' ' then
        if EndsWith(s.pending, '<') || EndsWith(s.pending, ' ') then
          var text := if EndsWith(s.pending, ' ') then s.pending else s.pending + " ";
          Flushed(s, text).(mightBeTag := false, pending := "", pendingSpaces := KeptSpaces(s, v))
        else
          s.(pendingSpaces := s.pendingSpaces + 1, pending := s.pending + [c])
      else
        s.(pending := s.pending + [c])
    else if c == '<' then
      s.(pending := s.pending + "<", mightBeTag := true)
    else if s.insideBody then
      if c == ' ' && |s.content| > 0 && !EndsWith(s.content, ' ') then
        s.(nbWords := if EndsWithSpecial(s.content) then s.nbWords else s.nbWords + 1,
           content := s.content + [c])
      else if IsSpecial(c) then
        var more := if |s.content| == 0 || EndsWith(s.content, ' ') || EndsWithSpecial(s.content) then 1 else 2;
        s.(nbWords := s.nbWords + more, content := s.content + [c])
      else if c != ' ' then
        s.(content := s.content + [c])
      else
        s
    else
      s
  }

  /** Yields the cleaned content once the counter reaches the limit. */
  function Cut(s: Stripper, limit: nat): Stripper
  {
    if s.nbWords >= limit then
      s.(yielded := s.yielded + [CleanBeforeYield(s.content)], content := "", nbWords := 0)
    else s
  }

  function Step(s: Stripper, c: char, limit: nat, v: Variant): Stripper
  {
    Cut(Strip(s, c, v), limit)
  }

  function Feed(s: Stripper, cs: string, limit: nat, v: Variant): Stripper
    decreases |cs|
  {
    if cs == [] then s else Feed(Step(s, cs[0], limit, v), cs[1..], limit, v)
  }

  /** The chunks once the input is exhausted: the remaining content, cleaned, comes last. */
  function Finish(s: Stripper): seq<string>
  {
    s.yielded + [CleanBeforeYield(s.content)]
  }

  // ---- The lines driver (`BufRead::lines`, each line `unwrap`ped) ----

  datatype LineRead = Line(text: string) | LineFailed

  function RunLines(s: Stripper, lines: seq<LineRead>, limit: nat, v: Variant): (Stripper, Completion)
    decreases |lines|
  {
    if lines == [] then (s, Completed)
    else if lines[0].LineFailed? then (s, Panicked)
    else RunLines(Feed(s, lines[0].text, limit, v), lines[1..], limit, v)
  }

  function ExtractFromLines(lines: seq<LineRead>, nbWordsPerYield: Option<nat>, v: Variant): (seq<string>, Completion)
  {
    var (s, completion) := RunLines(Initial, lines, Limit(nbWordsPerYield), v);
    if completion == Panicked then (s.yielded, Panicked) else (Finish(s), Completed)
  }

  // ---- The char-stream driver (`SourceBufferPort::next`) ----

  /** What one call of `next` returns: `Ok(Some(c))`, `Ok(None)` or `Err`. */
  datatype Pulled = Pulled(c: char) | Exhausted | PullFailed

  function RunPulls(s: Stripper, pulls: seq<Pulled>, limit: nat, v: Variant): (Stripper, Completion)
    decreases |pulls|
  {
    if pulls == [] then (s, Completed)
    else match pulls[0]
      case Exhausted => (s, Completed)
      case PullFailed => (s, Panicked)
      case Pulled(c) => RunPulls(Step(s, c, limit, v), pulls[1..], limit, v)
  }

  function ExtractFromPulls(pulls: seq<Pulled>, nbWordsPerYield: Option<nat>, v: Variant): (seq<string>, Completion)
  {
    var (s, completion) := RunPulls(Initial, pulls, Limit(nbWordsPerYield), v);
    if completion == Panicked then (s.yielded, Panicked) else (Finish(s), Completed)
  }

  // ---- Invariants ----

  predicate NoLeadingSpace(s: string)
  {
    s == [] || s[0] != ' '
  }

  /** The pending element starts with its `<`, and is empty when no element is open. */
  predicate ShapeInv(s: Stripper, v: Variant)
  {
    && NoLeadingSpace(s.content)
    && (s.mightBeTag ==> |s.pending| > 0 && s.pending[0] == '<')
    && (!s.mightBeTag ==> s.pending == [] && (v == Corrected ==> s.pendingSpaces == 0))
  }

  predicate ChunksInv(chunks: seq<string>)
  {
    forall k :: 0 <= k < |chunks| ==> NoLeadingSpace(chunks[k])
  }

  /** Below the limit between two chars; with a limit of 0 every char ends with a yield. */
  predicate CountInv(s: Stripper, limit: nat)
  {
    if limit == 0 then s.content == [] && s.nbWords == 0 else s.nbWords < limit
  }

  predicate Inv(s: Stripper, limit: nat, v: Variant)
  {
    ShapeInv(s, v) && ChunksInv(s.yielded) && CountInv(s, limit)
  }

  /** The chars yielded, pending as content, or pending as a possible element. */
  function Size(s: Stripper): nat
  {
    |Concat(s.yielded)| + |s.content| + |s.pending|
  }

  lemma FlushedShape(s: Stripper, text: string)
    requires NoLeadingSpace(s.content) && |text| > 0 && text[0] == '<'
    ensures NoLeadingSpace(Flushed(s, text).content)
    ensures |Flushed(s, text).content| <= |s.content| + |text|
    ensures Flushed(s, text).yielded == s.yielded
  {
  }

  /** One char keeps the shape and adds at most one char to what is tracked. */
  lemma StripKeeps(s: Stripper, c: char, v: Variant)
    requires ShapeInv(s, v)
    ensures ShapeInv(Strip(s, c, v), v)
    ensures Strip(s, c, v).yielded == s.yielded
    ensures Size(Strip(s, c, v)) <= Size(s) + 1
  {
    if s.mightBeTag {
      if c == '<' {
        FlushedShape(s, s.pending);
      } else if c == '>' {
      } else if s.pendingSpaces > LIMIT_NB_WORDS_IN_HTML_ELEMENT {
        FlushedShape(s, s.pending + [c]);
      } else if c == ' ' && (EndsWith(s.pending, '<') || EndsWith(s.pending, ' ')) {
        var text := if EndsWith(s.pending, ' ') then s.pending else s.pending + " ";
        FlushedShape(s, text);
      }
    }
  }

  lemma CleanKeeps(content: string)
    requires NoLeadingSpace(content)
    ensures NoLeadingSpace(CleanBeforeYield(content))
    ensures |CleanBeforeYield(content)| <= |content|
  {
  }

  lemma CutKeeps(s: Stripper, limit: nat, v: Variant)
    requires ShapeInv(s, v) && ChunksInv(s.yielded)
    ensures Inv(Cut(s, limit), limit, v)
    ensures Size(Cut(s, limit)) <= Size(s)
  {
    if s.nbWords >= limit {
      CleanKeeps(s.content);
      ConcatAppend(s.yielded, CleanBeforeYield(s.content));
    }
  }

  lemma StepKeeps(s: Stripper, c: char, limit: nat, v: Variant)
    requires Inv(s, limit, v)
    ensures Inv(Step(s, c, limit, v), limit, v)
    ensures Size(Step(s, c, limit, v)) <= Size(s) + 1
  {
    StripKeeps(s, c, v);
    CutKeeps(Strip(s, c, v), limit, v);
  }

  lemma {:induction false} FeedKeeps(s: Stripper, cs: string, limit: nat, v: Variant)
    requires Inv(s, limit, v)
    ensures Inv(Feed(s, cs, limit, v), limit, v)
    ensures Size(Feed(s, cs, limit, v)) <= Size(s) + |cs|
    decreases |cs|
  {
    if cs != [] {
      StepKeeps(s, cs[0], limit, v);
      FeedKeeps(Step(s, cs[0], limit, v), cs[1..], limit, v);
    }
  }

  lemma {:induction false} FeedAppend(s: Stripper, a: string, b: string, limit: nat, v: Variant)
    ensures Feed(s, a + b, limit, v) == Feed(Feed(s, a, limit, v), b, limit, v)
    decreases |a|
  {
    if a == [] {
      assert a + b == b;
    } else {
      assert (a + b)[0] == a[0];
      assert (a + b)[1..] == a[1..] + b;
      FeedAppend(Step(s, a[0], limit, v), a[1..], b, limit, v);
    }
  }

  // ---- When a chunk is yielded ----

  /** The counter at each yield a text causes, in order. */
  function Cuts(s: Stripper, cs: string, limit: nat, v: Variant): seq<nat>
    decreases |cs|
  {
    if cs == [] then []
    else
      var m := Strip(s, cs[0], v);
      (if m.nbWords >= limit then [m.nbWords] else []) + Cuts(Cut(m, limit), cs[1..], limit, v)
  }

  /**
   * The chunks yielded stay as they are, one chunk is added per entry of
   * `Cuts`, and every one was cut with the counter at or over the limit.
   */
  lemma {:induction false} FeedCuts(s: Stripper, cs: string, limit: nat, v: Variant)
    ensures var r := Feed(s, cs, limit, v);
            var cuts := Cuts(s, cs, limit, v);
            && |r.yielded| == |s.yielded| + |cuts| && r.yielded[..|s.yielded|] == s.yielded
            && (forall k :: 0 <= k < |cuts| ==> cuts[k] >= limit)
    decreases |cs|
  {
    if cs != [] {
      var m := Strip(s, cs[0], v);
      assert m.yielded == s.yielded;
      var s1 := Cut(m, limit);
      FeedCuts(s1, cs[1..], limit, v);
      var r := Feed(s, cs, limit, v);
      assert r == Feed(s1, cs[1..], limit, v);
      assert s1.yielded[..|s.yielded|] == s.yielded;
      assert r.yielded[..|s1.yielded|][..|s.yielded|] == r.yielded[..|s.yielded|];
    }
  }

  // ---- What one char does ----

  /** Outside the body no char reaches the content or the counter. */
  lemma OutsideBodyEmitsNothing(s: Stripper, c: char, v: Variant)
    requires !s.insideBody
    ensures Strip(s, c, v).content == s.content && Strip(s, c, v).nbWords == s.nbWords
  {
  }

  /**
   * Inside the body, outside any element, a char is dropped exactly when the
   * word table skips it, and otherwise is appended and counted as the table
   * says.
   */
  lemma BodyCharCounted(s: Stripper, c: char, v: Variant)
    requires s.insideBody && !s.mightBeTag && c != '<'
    ensures var r := Strip(s, c, v);
            var prev := LastState(s.content);
            && (Skips(prev, StateOf(c)) ==> r.content == s.content && r.nbWords == s.nbWords)
            && (!Skips(prev, StateOf(c)) ==>
                  r.content == s.content + [c] && r.nbWords == s.nbWords + Increment(prev, StateOf(c)))
  {
    if |s.content| > 0 {
      assert LastState(s.content) == StateOf(s.content[|s.content| - 1]);
    }
  }

  // ---- Elements ----

  function SpaceCount(s: string): nat
  {
    if s == [] then 0 else SpaceCount(s[..|s| - 1]) + (if s[|s| - 1] == ' ' then 1 else 0)
  }

  /**
   * An element name with its attributes as the stripper recognises it: no
   * `<` or `>`, no space first, no two spaces in a row, at most 30 spaces.
   */
  predicate TagName(name: string)
  {
    && (forall k :: 0 <= k < |name| ==> name[k] != '<' && name[k] != '>')
    && NoLeadingSpace(name)
    && NoDoubleSpace(name)
    && SpaceCount(name) <= LIMIT_NB_WORDS_IN_HTML_ELEMENT
  }

  lemma {:induction false} SpaceCountPrefix(s: string, n: nat)
    requires n <= |s|
    ensures SpaceCount(s[..n]) <= SpaceCount(s)
    decreases |s| - n
  {
    if n < |s| {
      SpaceCountPrefix(s, n + 1);
      var t := s[..n + 1];
      assert t[..|t| - 1] == s[..n];
      assert SpaceCount(t) >= SpaceCount(s[..n]);
    } else {
      assert s[..n] == s;
    }
  }

  /** The chars of an element name only grow the pending element. */
  lemma {:induction false} ReadTagName(t: Stripper, name: string, n: nat, k: nat, limit: nat, v: Variant)
    requires TagName(name) && n <= |name| && k + SpaceCount(name) <= LIMIT_NB_WORDS_IN_HTML_ELEMENT
    requires t.mightBeTag && t.pending == "<" + name[..n] && t.pendingSpaces == k + SpaceCount(name[..n])
    requires limit > 0 && t.nbWords < limit
    ensures Feed(t, name[n..], limit, v) == t.(pending := "<" + name, pendingSpaces := k + SpaceCount(name))
    decreases |name| - n
  {
    if n == |name| {
      assert name[..n] == name;
    } else {
      var t1 := t.(pending := "<" + name[..n + 1], pendingSpaces := k + SpaceCount(name[..n + 1]));
      assert Step(t, name[n], limit, v) == t1 by {
        NameCharAllowed(name, n);
        SpaceCountPrefix(name, n);
        NameCharFits(t, name, n, k);
        PendingCharRead(t, name[n], limit, v);
      }
      assert Feed(t, name[n..], limit, v) == Feed(t1, name[n + 1..], limit, v) by {
        assert name[n..][0] == name[n] && name[n..][1..] == name[n + 1..];
      }
      ReadTagName(t1, name, n + 1, k, limit, v);
    }
  }

  /** An element name holds no `<` or `>`, and a space in it follows a char that is not one. */
  lemma NameCharAllowed(name: string, n: nat)
    requires TagName(name) && n < |name|
    ensures name[n] != '<' && name[n] != '>'
    ensures name[n] == ' ' ==> n > 0 && name[n - 1] != ' ' && name[n - 1] != '<'
  {
    if name[n] == ' ' {
      assert NoLeadingSpace(name) && name[0] != ' ' ==> n != 0;
      assert NoDoubleSpace(name);
      assert name[n - 1] != '<';
    }
  }

  /** The next char of an element name neither ends the element nor gives it back. */
  lemma NameCharFits(t: Stripper, name: string, n: nat, k: nat)
    requires n < |name| && (name[n] == ' ' ==> n > 0 && name[n - 1] != ' ' && name[n - 1] != '<')
    requires t.pending == "<" + name[..n] && t.pendingSpaces == k + SpaceCount(name[..n])
    ensures name[n] == ' ' ==> !EndsWith(t.pending, '<') && !EndsWith(t.pending, ' ')
    ensures t.pending + [name[n]] == "<" + name[..n + 1]
    ensures k + SpaceCount(name[..n + 1]) == t.pendingSpaces + if name[n] == ' ' then 1 else 0
  {
    var c := name[n];
    if c == ' ' {
      assert t.pending[|t.pending| - 1] == name[n - 1];
    }
    assert name[..n + 1] == name[..n] + [c];
    var u := name[..n + 1];
    assert u[..|u| - 1] == name[..n] && u[|u| - 1] == c;
  }

  /** Inside a possible element, a char other than `<` and `>` that does not end it is appended. */
  lemma PendingCharRead(t: Stripper, c: char, limit: nat, v: Variant)
    requires t.mightBeTag && c != '<' && c != '>' && t.pendingSpaces <= LIMIT_NB_WORDS_IN_HTML_ELEMENT
    requires c == ' ' ==> !EndsWith(t.pending, '<') && !EndsWith(t.pending, ' ')
    requires t.nbWords < limit
    ensures Step(t, c, limit, v)
            == t.(pending := t.pending + [c], pendingSpaces := t.pendingSpaces + if c == ' ' then 1 else 0)
  {
  }

  /**
   * A recognised element between body text is removed: nothing is counted
   * or yielded, the body flag follows `<body>` and `</body>`, and the content
   * gains a space exactly when the element is one of the block elements,
   * the body is open, and the content is non-empty and does not end in a
   * space. The code as written adds the element's spaces to those left over,
   * which must stay within 30 for the element to be recognised; the
   * corrected variant starts from and returns to 0.
   */
  lemma TagRemoved(s: Stripper, name: string, limit: nat, v: Variant)
    requires Inv(s, limit, v) && !s.mightBeTag && limit > 0 && TagName(name)
    requires s.pendingSpaces + SpaceCount(name) <= LIMIT_NB_WORDS_IN_HTML_ELEMENT
    ensures var r := Feed(s, "<" + name + ">", limit, v);
            var body := BodyAfter(s.insideBody, "<" + name);
            && r.insideBody == body
            && r.content == (if SpaceAfter(s.content, body, "<" + name) then s.content + " " else s.content)
            && r.nbWords == s.nbWords && r.yielded == s.yielded
            && !r.mightBeTag && r.pending == []
            && r.pendingSpaces == (if v == Corrected then 0 else s.pendingSpaces + SpaceCount(name))
  {
    var t := Step(s, '<', limit, v);
    assert t == s.(pending := "<", mightBeTag := true);
    assert name[..0] == [];
    ReadTagName(t, name, 0, s.pendingSpaces, limit, v);
    assert name[0..] == name;
    FeedAppend(s, "<", name, limit, v);
    FeedAppend(s, "<" + name, ">", limit, v);
    assert Feed(s, "<", limit, v) == Feed(t, "", limit, v);
    var u := t.(pending := "<" + name, pendingSpaces := s.pendingSpaces + SpaceCount(name));
    assert Feed(u, ">", limit, v) == Step(u, '>', limit, v);
  }

  /** No space, `<` or `>`. */
  predicate PlainChars(name: string)
    decreases |name|
  {
    name == [] || (name[0] != '<' && name[0] != '>' && name[0] != ' ' && PlainChars(name[1..]))
  }

  lemma {:induction false} PlainCharsAll(name: string)
    requires PlainChars(name)
    ensures forall k :: 0 <= k < |name| ==> name[k] != '<' && name[k] != '>' && name[k] != ' '
    decreases |name|
  {
    if name != [] {
      PlainCharsAll(name[1..]);
      assert forall k :: 1 <= k < |name| ==> name[k] == name[1..][k - 1];
    }
  }

  lemma {:induction false} NoSpaceCount(name: string)
    requires forall k :: 0 <= k < |name| ==> name[k] != ' '
    ensures SpaceCount(name) == 0
    decreases |name|
  {
    if name != [] {
      var init := name[..|name| - 1];
      assert forall k :: 0 <= k < |init| ==> init[k] == name[k];
      NoSpaceCount(init);
    }
  }

  /** An element name with no space, `<` or `>` is recognised and counts no space. */
  lemma PlainName(name: string)
    requires PlainChars(name)
    ensures TagName(name) && SpaceCount(name) == 0
  {
    PlainCharsAll(name);
    NoSpaceCount(name);
  }

  /** `<body>` opens the body with nothing emitted or counted. */
  lemma OpenBody(limit: nat, v: Variant)
    requires limit > 0
    ensures Feed(Initial, "<body>", limit, v) == LeftOver(0)
    ensures Tag("body") == "<body>"
  {
    PlainName("body");
    assert Inv(Initial, limit, v);
    TagRemoved(Initial, "body", limit, v);
    assert "<" + "body" + ">" == "<body>";
  }

  /** `</body>` closes the body, and adds no space and counts nothing. */
  lemma CloseBody(s: Stripper, limit: nat, v: Variant)
    requires Inv(s, limit, v) && !s.mightBeTag && s.insideBody && limit > 0 && s.pendingSpaces == 0
    ensures Feed(s, Tag("/body"), limit, v) == s.(insideBody := false)
  {
    PlainName("/body");
    TagRemoved(s, "/body", limit, v);
  }

  /** The element `name` as written in a page. */
  function Tag(name: string): string
  {
    "<" + name + ">"
  }

  /**
   * An element that neither opens nor closes the body and adds no space, and
   * has no space in it, leaves the state as it was.
   */
  lemma TagKept(s: Stripper, name: string, limit: nat, v: Variant)
    requires Inv(s, limit, v) && !s.mightBeTag && limit > 0 && s.pendingSpaces <= LIMIT_NB_WORDS_IN_HTML_ELEMENT
    requires PlainChars(name) && name != "body" && name != "/body"
    requires !SpaceAfter(s.content, s.insideBody, "<" + name)
    ensures Feed(s, Tag(name), limit, v) == s
  {
    PlainName(name);
    TagRemoved(s, name, limit, v);
    assert BodyAfter(s.insideBody, "<" + name) == s.insideBody by {
      assert ("<" + name)[1..] == name;
      assert "<body"[1..] == "body" && "</body"[1..] == "/body";
    }
  }

  // ---- Body text ----

  predicate NotSpace(c: char)
  {
    c != ' '
  }

  /** A text with its spaces dropped: what the word table cannot lose. */
  function Visible(s: string): string
  {
    Filter(s, NotSpace)
  }

  /** Everything emitted so far: the chunks yielded, then the content pending. */
  function Tracked(s: Stripper): string
  {
    Concat(s.yielded) + s.content
  }

  predicate NoElement(t: string)
  {
    forall i :: 0 <= i < |t| ==> t[i] != '<'
  }

  lemma CleanVisible(content: string)
    ensures Visible(CleanBeforeYield(content)) == Visible(content)
  {
    if EndsWith(content, ' ') {
      FilterPush(CleanBeforeYield(content), ' ', NotSpace);
    }
  }

  /** A yield pops at most a trailing space, so nothing visible is lost. */
  lemma CutVisible(m: Stripper, limit: nat)
    ensures var r := Cut(m, limit);
            && Visible(Tracked(r)) == Visible(Tracked(m))
            && r.insideBody == m.insideBody && r.mightBeTag == m.mightBeTag
            && r.pending == m.pending && r.pendingSpaces == m.pendingSpaces
  {
    if m.nbWords >= limit {
      var x := CleanBeforeYield(m.content);
      ConcatAppend(m.yielded, x);
      assert Tracked(Cut(m, limit)) == Concat(m.yielded) + x;
      FilterAppend(Concat(m.yielded), x, NotSpace);
      FilterAppend(Concat(m.yielded), m.content, NotSpace);
      CleanVisible(m.content);
    }
  }

  /** The chunks once finished hold all that was emitted, less popped spaces. */
  lemma FinishVisible(s: Stripper)
    ensures Visible(Concat(Finish(s))) == Visible(Tracked(s))
  {
    var x := CleanBeforeYield(s.content);
    ConcatAppend(s.yielded, x);
    FilterAppend(Concat(s.yielded), x, NotSpace);
    FilterAppend(Concat(s.yielded), s.content, NotSpace);
    CleanVisible(s.content);
  }

  /** One char of body text: what is emitted grows by the char, unless it is a skipped space. */
  lemma BodyCharTracked(s: Stripper, c: char, limit: nat, v: Variant)
    requires Inv(s, limit, v) && s.insideBody && !s.mightBeTag && c != '<'
    ensures var r := Step(s, c, limit, v);
            && Inv(r, limit, v) && r.insideBody && !r.mightBeTag
            && Visible(Tracked(r)) == Visible(Tracked(s)) + Visible([c])
  {
    StepKeeps(s, c, limit, v);
    var m := Strip(s, c, v);
    assert m.yielded == s.yielded && m.insideBody && !m.mightBeTag && m.pending == s.pending
      && m.pendingSpaces == s.pendingSpaces;
    assert Visible(Tracked(m)) == Visible(Tracked(s)) + Visible([c]) by {
      BodyCharCounted(s, c, v);
      FilterSingle(c, NotSpace);
      if m.content == s.content + [c] {
        assert Tracked(m) == Tracked(s) + [c];
        FilterPush(Tracked(s), c, NotSpace);
      } else {
        assert Skips(LastState(s.content), StateOf(c));
        assert c == ' ';
      }
    }
    CutVisible(m, limit);
  }

  /** Body text with no element in it reaches the chunks, spaces aside, exactly. */
  lemma {:induction false} BodyTextTracked(s: Stripper, t: string, limit: nat, v: Variant)
    requires Inv(s, limit, v) && s.insideBody && !s.mightBeTag && NoElement(t)
    ensures var r := Feed(s, t, limit, v);
            && Inv(r, limit, v) && r.insideBody && !r.mightBeTag
            && Visible(Tracked(r)) == Visible(Tracked(s)) + Visible(t)
    decreases |t|
  {
    if t != [] {
      BodyCharTracked(s, t[0], limit, v);
      var s1 := Step(s, t[0], limit, v);
      assert NoElement(t[1..]) by {
        assert forall i :: 0 <= i < |t[1..]| ==> t[1..][i] == t[i + 1];
      }
      BodyTextTracked(s1, t[1..], limit, v);
      assert Visible(t) == Visible([t[0]]) + Visible(t[1..]) by {
        assert t == [t[0]] + t[1..];
        FilterAppend([t[0]], t[1..], NotSpace);
      }
    }
  }

  /**
   * `<body>` followed by text with no element: the chunks, with the trailing
   * spaces popped at each yield put back, are the text less the spaces the
   * word table skips; so with spaces dropped they are the text exactly.
   */
  lemma BodyTextDelivered(t: string, limit: nat, v: Variant)
    requires limit > 0 && NoElement(t)
    ensures Visible(Concat(Finish(Feed(Initial, "<body>" + t, limit, v)))) == Visible(t)
  {
    OpenBody(limit, v);
    FeedAppend(Initial, "<body>", t, limit, v);
    assert Inv(LeftOver(0), limit, v);
    BodyTextTracked(LeftOver(0), t, limit, v);
    assert Tracked(LeftOver(0)) == "";
    FinishVisible(Feed(LeftOver(0), t, limit, v));
  }

  // ---- The documented example ----

  /** Text outside the body, with no element in it, leaves the state as it was. */
  lemma {:induction false} OutsideTextDropped(s: Stripper, t: string, limit: nat, v: Variant)
    requires !s.insideBody && !s.mightBeTag && s.nbWords < limit && NoElement(t)
    ensures Feed(s, t, limit, v) == s
    decreases |t|
  {
    if t != [] {
      assert Step(s, t[0], limit, v) == s;
      assert NoElement(t[1..]) by {
        assert forall i :: 0 <= i < |t[1..]| ==> t[1..][i] == t[i + 1];
      }
      OutsideTextDropped(s, t[1..], limit, v);
    }
  }

  /** No space, `<` or special char: text the counter does not see. */
  predicate WordChars(t: string)
    decreases |t|
  {
    t == [] || (t[0] != '<' && t[0] != ' ' && !IsSpecial(t[0]) && WordChars(t[1..]))
  }

  lemma {:induction false} WordHasNoElement(t: string)
    requires WordChars(t)
    ensures NoElement(t)
    decreases |t|
  {
    if t != [] {
      WordHasNoElement(t[1..]);
      assert forall i :: 1 <= i < |t| ==> t[i] == t[1..][i - 1];
    }
  }

  /** A word in the body joins the content uncounted. */
  lemma {:induction false} WordCopied(s: Stripper, t: string, limit: nat, v: Variant)
    requires s.insideBody && !s.mightBeTag && s.nbWords < limit && WordChars(t)
    ensures Feed(s, t, limit, v) == s.(content := s.content + t)
    decreases |t|
  {
    if t != [] {
      var s1 := s.(content := s.content + [t[0]]);
      assert Step(s, t[0], limit, v) == s1;
      WordCopied(s1, t[1..], limit, v);
      assert s1.content + t[1..] == s.content + t by {
        assert t == [t[0]] + t[1..];
      }
    }
  }

  /** Two inputs that leave a state as it is leave it as it is one after the other. */
  lemma FixedJoin(x: Stripper, a: string, b: string, limit: nat, v: Variant)
    requires Feed(x, a, limit, v) == x && Feed(x, b, limit, v) == x
    ensures Feed(x, a + b, limit, v) == x
  {
    FeedAppend(x, a, b, limit, v);
  }

  /** An element name that the stripper drops without touching the body flag. */
  predicate Inert(name: string)
  {
    PlainChars(name) && name != "body" && name != "/body"
  }

  /** A head, that is elements and text outside the body, is dropped altogether. */
  lemma PageHead(html: string, head: string, title: string, text: string, endTitle: string, endHead: string,
                 limit: nat, v: Variant)
    requires limit > 0 && NoElement(text)
    requires Inert(html) && Inert(head) && Inert(title) && Inert(endTitle) && Inert(endHead)
    ensures Feed(Initial, Tag(html) + Tag(head) + Tag(title) + text + Tag(endTitle) + Tag(endHead), limit, v)
            == Initial
  {
    var x := Initial;
    assert Inv(x, limit, v);
    TagKept(x, html, limit, v);
    TagKept(x, head, limit, v);
    TagKept(x, title, limit, v);
    OutsideTextDropped(x, text, limit, v);
    TagKept(x, endTitle, limit, v);
    TagKept(x, endHead, limit, v);
    FixedJoin(x, Tag(html), Tag(head), limit, v);
    FixedJoin(x, Tag(html) + Tag(head), Tag(title), limit, v);
    FixedJoin(x, Tag(html) + Tag(head) + Tag(title), text, limit, v);
    FixedJoin(x, Tag(html) + Tag(head) + Tag(title) + text, Tag(endTitle), limit, v);
    FixedJoin(x, Tag(html) + Tag(head) + Tag(title) + text + Tag(endTitle), Tag(endHead), limit, v);
  }

  /** One word in an element that adds no space when it closes, at the start of the body. */
  lemma ParagraphWord(p: string, word: string, endP: string, limit: nat, v: Variant)
    requires limit > 0 && Inert(p) && Inert(endP) && WordChars(word)
    requires "<" + endP !in HTML_ELEMENTS_NEEDING_A_SPACE
    ensures Feed(LeftOver(0), Tag(p) + word + Tag(endP), limit, v) == LeftOver(0).(content := word)
  {
    var b := LeftOver(0);
    var w := b.(content := word);
    assert Inv(b, limit, v);
    TagKept(b, p, limit, v);
    assert Feed(b, word, limit, v) == w by {
      WordCopied(b, word, limit, v);
      assert b.content + word == word;
    }
    assert Inv(w, limit, v) by {
      assert word == [] || word[0] != ' ';
    }
    TagKept(w, endP, limit, v);
    FeedAppend(b, Tag(p), word, limit, v);
    FeedAppend(b, Tag(p) + word, Tag(endP), limit, v);
  }

  /** A body holding one word in an element is left with that word as content. */
  lemma PageBody(p: string, word: string, endP: string, endHtml: string, limit: nat, v: Variant)
    requires limit > 0 && Inert(p) && Inert(endP) && Inert(endHtml) && WordChars(word)
    requires "<" + endP !in HTML_ELEMENTS_NEEDING_A_SPACE
    ensures Feed(Initial, Tag("body") + (Tag(p) + word + Tag(endP)) + Tag("/body") + Tag(endHtml), limit, v)
            == Initial.(content := word)
  {
    var w := LeftOver(0).(content := word);
    var e := Initial.(content := word);
    var para := Tag(p) + word + Tag(endP);
    assert Inv(w, limit, v) && Inv(e, limit, v) by {
      assert word == [] || word[0] != ' ';
    }
    assert Feed(Initial, Tag("body") + para, limit, v) == w by {
      OpenBody(limit, v);
      ParagraphWord(p, word, endP, limit, v);
      FeedAppend(Initial, Tag("body"), para, limit, v);
    }
    assert Feed(w, Tag("/body"), limit, v) == e by {
      CloseBody(w, limit, v);
    }
    assert Feed(e, Tag(endHtml), limit, v) == e by {
      TagKept(e, endHtml, limit, v);
    }
    FeedAppend(Initial, Tag("body") + para, Tag("/body"), limit, v);
    FeedAppend(Initial, Tag("body") + para + Tag("/body"), Tag(endHtml), limit, v);
  }

  lemma HeadNames()
    ensures Inert("html") && Inert("head") && Inert("title") && Inert("/title") && Inert("/head")
  {
  }

  lemma BodyNames()
    ensures Inert("p") && Inert("/p") && Inert("/html") && WordChars("Test")
    ensures "<" + "/p" !in HTML_ELEMENTS_NEEDING_A_SPACE
  {
    assert "<" + "/p" == "</p";
  }

  /** The documented example, part by part. */
  lemma ExampleParts(v: Variant)
    ensures Feed(Initial, Tag("html") + Tag("head") + Tag("title") + "Test" + Tag("/title") + Tag("/head"), 100, v)
            == Initial
    ensures Feed(Initial, Tag("body") + (Tag("p") + "Test" + Tag("/p")) + Tag("/body") + Tag("/html"), 100, v)
            == Initial.(content := "Test")
  {
    HeadNames();
    BodyNames();
    WordHasNoElement("Test");
    PageHead("html", "head", "title", "Test", "/title", "/head", 100, v);
    PageBody("p", "Test", "/p", "/html", 100, v);
  }

  /** The documented page, spelled out element by element. */
  lemma DocumentSpelled()
    ensures Tag("html") + Tag("head") + Tag("title") + "Test" + Tag("/title") + Tag("/head")
            + (Tag("body") + (Tag("p") + "Test" + Tag("/p")) + Tag("/body") + Tag("/html"))
            == "<html><head><title>Test</title></head><body><p>Test</p></body></html>"
  {
    HeadSpelled();
    BodySpelled();
    JoinSpelled();
  }

  lemma HeadSpelled()
    ensures Tag("html") + Tag("head") + Tag("title") + "Test" + Tag("/title") + Tag("/head")
            == "<html><head><title>Test</title></head>"
  {
  }

  lemma BodySpelled()
    ensures Tag("body") + (Tag("p") + "Test" + Tag("/p")) + Tag("/body") + Tag("/html")
            == "<body><p>Test</p></body></html>"
  {
  }

  lemma JoinSpelled()
    ensures "<html><head><title>Test</title></head>" + "<body><p>Test</p></body></html>"
            == "<html><head><title>Test</title></head><body><p>Test</p></body></html>"
  {
  }

  /** A source of one line yields what the stripper leaves of that line. */
  lemma OneLine(text: string, nbWordsPerYield: Option<nat>, v: Variant)
    ensures ExtractFromLines([Line(text)], nbWordsPerYield, v)
            == (Finish(Feed(Initial, text, Limit(nbWordsPerYield), v)), Completed)
  {
    var lines := [Line(text)];
    RunLinesFeeds(Initial, lines, Limit(nbWordsPerYield), v);
    assert LinesText(lines) == text by {
      assert LinesText(lines[1..]) == [];
    }
  }

  /**
   * The example the generator documents: a one-line page whose body holds
   * `<p>Test</p>` yields the single chunk `Test`, then completes.
   */
  lemma DocumentedExample(v: Variant)
    ensures ExtractFromLines([Line("<html><head><title>Test</title></head><body><p>Test</p></body></html>")], None, v)
            == (["Test"], Completed)
  {
    var doc := "<html><head><title>Test</title></head><body><p>Test</p></body></html>";
    var e := Initial.(content := "Test");
    assert Feed(Initial, doc, 100, v) == e by {
      DocumentFed(v);
    }
    assert Finish(e) == ["Test"] by {
      assert "Test"[3] == 't';
      ContentFinished(e);
    }
    OneLine(doc, None, v);
  }

  /** The stripper leaves `Test` of the documented page, and no chunk yielded. */
  lemma DocumentFed(v: Variant)
    ensures Feed(Initial, "<html><head><title>Test</title></head><body><p>Test</p></body></html>", 100, v)
            == Initial.(content := "Test")
  {
    var head := Tag("html") + Tag("head") + Tag("title") + "Test" + Tag("/title") + Tag("/head");
    var body := Tag("body") + (Tag("p") + "Test" + Tag("/p")) + Tag("/body") + Tag("/html");
    ExampleParts(v);
    FeedAppend(Initial, head, body, 100, v);
    DocumentSpelled();
  }

  /** Content that does not end in a space is the last chunk as it is. */
  lemma ContentFinished(s: Stripper)
    requires !EndsWith(s.content, ' ')
    ensures Finish(s) == s.yielded + [s.content]
  {
  }

  // ---- The counter the code as written keeps ----

  /** Inside the body, nothing pending, `k` spaces left over from earlier elements. */
  function LeftOver(k: nat): Stripper
  {
    Stripper("", true, false, "", k, 0, [])
  }

  /** `n` copies of the element `<i b>`. */
  function Elements(n: nat): string
  {
    if n == 0 then "" else Elements(n - 1) + "<i b>"
  }

  /** As written, each `<i b>` leaves one more space on the counter. */
  lemma ElementAsWritten(k: nat)
    requires k < 30
    ensures Feed(LeftOver(k), "<i b>", 100, AsWritten) == LeftOver(k + 1)
  {
    var s1 := Step(LeftOver(k), '<', 100, AsWritten);
    assert s1 == LeftOver(k).(pending := "<", mightBeTag := true);
    var s2 := Step(s1, 'i', 100, AsWritten);
    assert s2 == s1.(pending := "<i");
    var s3 := Step(s2, ' ', 100, AsWritten);
    assert s3 == s1.(pending := "<i ", pendingSpaces := k + 1);
    var s4 := Step(s3, 'b', 100, AsWritten);
    assert s4 == s1.(pending := "<i b", pendingSpaces := k + 1);
    assert Step(s4, '>', 100, AsWritten) == LeftOver(k + 1);
    assert Feed(LeftOver(k), "<i b>", 100, AsWritten) == Feed(s4, ">", 100, AsWritten);
  }

  lemma {:induction false} ElementsAsWritten(n: nat)
    requires n <= 30
    ensures Feed(LeftOver(0), Elements(n), 100, AsWritten) == LeftOver(n)
  {
    if n > 0 {
      ElementsAsWritten(n - 1);
      FeedAppend(LeftOver(0), Elements(n - 1), "<i b>", 100, AsWritten);
      ElementAsWritten(n - 1);
    }
  }

  /** The 31st element comes out as text once 30 spaces were left over. */
  lemma ElementLeaks()
    ensures Feed(LeftOver(30), "<i b>", 100, AsWritten).content == "<i b>"
  {
    var s1 := Step(LeftOver(30), '<', 100, AsWritten);
    assert s1 == LeftOver(30).(pending := "<", mightBeTag := true);
    var s2 := Step(s1, 'i', 100, AsWritten);
    assert s2 == s1.(pending := "<i");
    var s3 := Step(s2, ' ', 100, AsWritten);
    assert s3 == s1.(pending := "<i ", pendingSpaces := 31);
    var s4 := Step(s3, 'b', 100, AsWritten);
    assert s4 == LeftOver(0).(content := "<i b", nbWords := 32);
    var s5 := Step(s4, '>', 100, AsWritten);
    assert s5 == LeftOver(0).(content := "<i b>", nbWords := 32);
    assert Feed(LeftOver(30), "<i b>", 100, AsWritten) == Feed(s4, ">", 100, AsWritten);
  }

  /**
   * As written, 31 well-formed elements `<i b>` in a body leave the last one
   * in the content, although none is more than one space long.
   */
  lemma LeakedElementAsWritten()
    ensures Feed(Initial, "<body>" + Elements(31), 100, AsWritten).content == "<i b>"
  {
    OpenBody(100, AsWritten);
    ElementsAsWritten(30);
    FeedAppend(Initial, "<body>", Elements(31), 100, AsWritten);
    FeedAppend(LeftOver(0), Elements(30), "<i b>", 100, AsWritten);
    ElementLeaks();
  }

  /** With the counter reset, the same input leaves the content empty. */
  lemma {:induction false} ElementsCorrected(n: nat)
    ensures Feed(Initial, "<body>" + Elements(n), 100, Corrected).content == ""
  {
    OpenBody(100, Corrected);
    FeedAppend(Initial, "<body>", Elements(n), 100, Corrected);
    ElementsDropped(n, 100);
  }

  lemma ElementsDropped(n: nat, limit: nat)
    requires limit > 0
    ensures Feed(LeftOver(0), Elements(n), limit, Corrected) == LeftOver(0)
  {
    ElementDropped(limit);
    RepeatedFixed(LeftOver(0), "<i b>", n, limit, Corrected);
    ElementsRepeated(n);
  }

  /** `n` copies of `e`. */
  function Repeated(e: string, n: nat): string
  {
    if n == 0 then "" else Repeated(e, n - 1) + e
  }

  lemma {:induction false} ElementsRepeated(n: nat)
    ensures Elements(n) == Repeated("<i b>", n)
  {
    if n > 0 {
      ElementsRepeated(n - 1);
    }
  }

  /** A state that some input leaves as it is, any number of copies of that input leave as it is. */
  lemma {:induction false} RepeatedFixed(x: Stripper, e: string, n: nat, limit: nat, v: Variant)
    requires Feed(x, e, limit, v) == x
    ensures Feed(x, Repeated(e, n), limit, v) == x
  {
    if n > 0 {
      FeedAppend(x, Repeated(e, n - 1), e, limit, v);
      RepeatedFixed(x, e, n - 1, limit, v);
    }
  }

  /** With the counter reset, one `<i b>` leaves nothing behind. */
  lemma ElementDropped(limit: nat)
    requires limit > 0
    ensures Feed(LeftOver(0), "<i b>", limit, Corrected) == LeftOver(0)
  {
    assert TagName("i b") by {
      assert SpaceCount("i b") == 1 by {
        assert "i b"[..2] == "i " && "i "[..1] == "i" && "i"[..0] == "";
      }
    }
    assert Inv(LeftOver(0), limit, Corrected);
    TagRemoved(LeftOver(0), "i b", limit, Corrected);
    assert "<" + "i b" + ">" == "<i b>";
  }

  // ---- The drivers ----

  /** The chars the lines hand over, with their terminators dropped, up to the first failed line. */
  function LinesText(lines: seq<LineRead>): string
    decreases |lines|
  {
    if lines == [] || lines[0].LineFailed? then [] else lines[0].text + LinesText(lines[1..])
  }

  predicate LinesFail(lines: seq<LineRead>)
  {
    exists k :: 0 <= k < |lines| && lines[k].LineFailed?
  }

  /** Lines are read one after the other, with no separator between them. */
  lemma {:induction false} RunLinesFeeds(s: Stripper, lines: seq<LineRead>, limit: nat, v: Variant)
    ensures RunLines(s, lines, limit, v) ==
            (Feed(s, LinesText(lines), limit, v), if LinesFail(lines) then Panicked else Completed)
    decreases |lines|
  {
    if lines == [] {
    } else if lines[0].LineFailed? {
      assert LinesFail(lines);
    } else {
      RunLinesFeeds(Feed(s, lines[0].text, limit, v), lines[1..], limit, v);
      FeedAppend(s, lines[0].text, LinesText(lines[1..]), limit, v);
      assert LinesFail(lines) <==> LinesFail(lines[1..]) by {
        if LinesFail(lines) {
          var k :| 0 <= k < |lines| && lines[k].LineFailed?;
          assert lines[1..][k - 1] == lines[k];
        }
        if LinesFail(lines[1..]) {
          var k :| 0 <= k < |lines[1..]| && lines[1..][k].LineFailed?;
          assert lines[k + 1] == lines[1..][k];
        }
      }
    }
  }

  /** The chars pulled before the first `Ok(None)` or `Err`. */
  function PulledText(pulls: seq<Pulled>): string
    decreases |pulls|
  {
    if pulls == [] || !pulls[0].Pulled? then [] else [pulls[0].c] + PulledText(pulls[1..])
  }

  /** Whether an `Err` comes before the first `Ok(None)`. */
  predicate PullsFail(pulls: seq<Pulled>)
    decreases |pulls|
  {
    pulls != [] && !pulls[0].Exhausted? && (pulls[0].PullFailed? || PullsFail(pulls[1..]))
  }

  lemma {:induction false} RunPullsFeeds(s: Stripper, pulls: seq<Pulled>, limit: nat, v: Variant)
    ensures RunPulls(s, pulls, limit, v) ==
            (Feed(s, PulledText(pulls), limit, v), if PullsFail(pulls) then Panicked else Completed)
    decreases |pulls|
  {
    if pulls != [] && pulls[0].Pulled? {
      var c := pulls[0].c;
      RunPullsFeeds(Step(s, c, limit, v), pulls[1..], limit, v);
      assert ([c] + PulledText(pulls[1..]))[1..] == PulledText(pulls[1..]);
    }
  }

  /**
   * Whatever the driver: no chunk starts with a space, and every char of the
   * input gives at most one char of the chunks.
   */
  lemma FeedChunks(cs: string, limit: nat, v: Variant)
    ensures var s := Feed(Initial, cs, limit, v);
            && ChunksInv(s.yielded) && |Concat(s.yielded)| <= |cs|
            && ChunksInv(Finish(s)) && |Concat(Finish(s))| <= |cs|
  {
    assert Inv(Initial, limit, v);
    FeedKeeps(Initial, cs, limit, v);
    var s := Feed(Initial, cs, limit, v);
    CleanKeeps(s.content);
    ConcatAppend(s.yielded, CleanBeforeYield(s.content));
    assert Size(Initial) == 0;
  }

  /**
   * The yield rule over a whole text: every chunk yielded before the end was
   * cut with the counter at or over the limit; what is left at the end is
   * below it, and with a limit of 0 it is empty.
   */
  lemma FeedYieldRule(cs: string, limit: nat, v: Variant)
    ensures var s := Feed(Initial, cs, limit, v);
            var cuts := Cuts(Initial, cs, limit, v);
            && |s.yielded| == |cuts| && (forall k :: 0 <= k < |cuts| ==> cuts[k] >= limit)
            && (limit > 0 ==> s.nbWords < limit)
            && (limit == 0 ==> Finish(s)[|Finish(s)| - 1] == "")
  {
    assert Inv(Initial, limit, v);
    FeedKeeps(Initial, cs, limit, v);
    FeedCuts(Initial, cs, limit, v);
  }

  /**
   * Whatever the limit: a line that cannot be read panics, with the chunks
   * yielded so far; otherwise one last chunk follows them. No chunk starts
   * with a space, every char gives at most one char of the chunks, and each
   * chunk but the last was cut at the limit while the last is below it.
   */
  lemma ExtractFromLinesProperties(lines: seq<LineRead>, nbWordsPerYield: Option<nat>, v: Variant)
    ensures var (chunks, completion) := ExtractFromLines(lines, nbWordsPerYield, v);
            var limit := Limit(nbWordsPerYield);
            var cuts := Cuts(Initial, LinesText(lines), limit, v);
            && (completion == Panicked <==> LinesFail(lines))
            && (completion == Completed ==> |chunks| > 0)
            && ChunksInv(chunks)
            && |Concat(chunks)| <= |LinesText(lines)|
            && (forall k :: 0 <= k < |cuts| ==> cuts[k] >= limit)
            && (completion == Panicked ==> |chunks| == |cuts|)
            && (completion == Completed ==> |chunks| == |cuts| + 1)
            && (limit > 0 ==> Feed(Initial, LinesText(lines), limit, v).nbWords < limit)
            && (completion == Completed && limit == 0 ==> chunks[|chunks| - 1] == "")
  {
    RunLinesFeeds(Initial, lines, Limit(nbWordsPerYield), v);
    FeedChunks(LinesText(lines), Limit(nbWordsPerYield), v);
    FeedYieldRule(LinesText(lines), Limit(nbWordsPerYield), v);
  }

  /** The same properties for the char-stream driver, where an `Err` panics. */
  lemma ExtractFromPullsProperties(pulls: seq<Pulled>, nbWordsPerYield: Option<nat>, v: Variant)
    ensures var (chunks, completion) := ExtractFromPulls(pulls, nbWordsPerYield, v);
            var limit := Limit(nbWordsPerYield);
            var cuts := Cuts(Initial, PulledText(pulls), limit, v);
            && (completion == Panicked <==> PullsFail(pulls))
            && (completion == Completed ==> |chunks| > 0)
            && ChunksInv(chunks)
            && |Concat(chunks)| <= |PulledText(pulls)|
            && (forall k :: 0 <= k < |cuts| ==> cuts[k] >= limit)
            && (completion == Panicked ==> |chunks| == |cuts|)
            && (completion == Completed ==> |chunks| == |cuts| + 1)
            && (limit > 0 ==> Feed(Initial, PulledText(pulls), limit, v).nbWords < limit)
            && (completion == Completed && limit == 0 ==> chunks[|chunks| - 1] == "")
  {
    RunPullsFeeds(Initial, pulls, Limit(nbWordsPerYield), v);
    FeedChunks(PulledText(pulls), Limit(nbWordsPerYield), v);
    FeedYieldRule(PulledText(pulls), Limit(nbWordsPerYield), v);
  }

  /** Lines holding `<body>` and then text with no element: the chunks hold that text, spaces aside. */
  lemma LinesBodyTextDelivered(lines: seq<LineRead>, t: string, nbWordsPerYield: Option<nat>, v: Variant)
    requires LinesText(lines) == "<body>" + t && NoElement(t) && Limit(nbWordsPerYield) > 0
    ensures var (chunks, completion) := ExtractFromLines(lines, nbWordsPerYield, v);
            completion == Completed ==> Visible(Concat(chunks)) == Visible(t)
  {
    RunLinesFeeds(Initial, lines, Limit(nbWordsPerYield), v);
    BodyTextDelivered(t, Limit(nbWordsPerYield), v);
  }

  /** The same for the char-stream driver. */
  lemma PullsBodyTextDelivered(pulls: seq<Pulled>, t: string, nbWordsPerYield: Option<nat>, v: Variant)
    requires PulledText(pulls) == "<body>" + t && NoElement(t) && Limit(nbWordsPerYield) > 0
    ensures var (chunks, completion) := ExtractFromPulls(pulls, nbWordsPerYield, v);
            completion == Completed ==> Visible(Concat(chunks)) == Visible(t)
  {
    RunPullsFeeds(Initial, pulls, Limit(nbWordsPerYield), v);
    BodyTextDelivered(t, Limit(nbWordsPerYield), v);
  }

  /** An empty source yields one empty content, then completes. */
  lemma EmptySourceYieldsEmptyContent(nbWordsPerYield: Option<nat>, v: Variant)
    ensures ExtractFromLines([], nbWordsPerYield, v) == ([""], Completed)
    ensures ExtractFromPulls([Exhausted], nbWordsPerYield, v) == ([""], Completed)
  {
    assert RunLines(Initial, [], Limit(nbWordsPerYield), v) == (Initial, Completed);
    assert RunPulls(Initial, [Exhausted], Limit(nbWordsPerYield), v) == (Initial, Completed);
    assert Finish(Initial) == [""];
  }

  /** One char through the stripper and the yield check, on the generator's local variables. */
  method ProcessChar(s: Stripper, c: char, limit: nat, v: Variant) returns (r: Stripper)
    ensures r == Step(s, c, limit, v)
  {
    var content, insideBody, mightBeTag := s.content, s.insideBody, s.mightBeTag;
    var pending, pendingSpaces, nbWords, yielded := s.pending, s.pendingSpaces, s.nbWords, s.yielded;
    if mightBeTag {
      if c == '<' {
        if insideBody {
          content := content + pending;
          nbWords := nbWords + pendingSpaces + 1;
        }
        pendingSpaces := 0;
        pending := "<";
      } else if c == '>' {
        if pending == "<body" {
          insideBody := true;
        } else if pending == "</body" {
          insideBody := false;
        }
        if insideBody && pending in HTML_ELEMENTS_NEEDING_A_SPACE
           && |content| > 0 && content[|content| - 1] != ' ' {
          content := content + " ";
        }
        mightBeTag := false;
        pending := "";
        if v == Corrected {
          pendingSpaces := 0;
        }
      } else if pendingSpaces > LIMIT_NB_WORDS_IN_HTML_ELEMENT {
        pending := pending + [c];
        if insideBody {
          content := content + pending;
          nbWords := nbWords + pendingSpaces + 1;
        }
        pendingSpaces := 0;
        mightBeTag := false;
        pending := "";
      } else if c == ' ' {
        if EndsWith(pending, '<') || EndsWith(pending, ' ') {
          mightBeTag := false;
          if insideBody {
            if !EndsWith(pending, ' ') {
              pending := pending + " ";
            }
            content := content + pending;
            nbWords := nbWords + pendingSpaces + 1;
          }
          pending := "";
          if v == Corrected {
            pendingSpaces := 0;
          }
        } else {
          pendingSpaces := pendingSpaces + 1;
          pending := pending + [c];
        }
      } else {
        pending := pending + [c];
      }
    } else if c == '<' {
      pending := pending + "<";
      mightBeTag := true;
    } else if insideBody {
      if c == ' ' && |content| > 0 && content[|content| - 1] != ' ' {
        if !EndsWithSpecial(content) {
          nbWords := nbWords + 1;
        }
        content := content + [c];
      } else if IsSpecial(c) {
        if |content| == 0 || content[|content| - 1] == ' ' || EndsWithSpecial(content) {
          nbWords := nbWords + 1;
        } else {
          nbWords := nbWords + 2;
        }
        content := content + [c];
      } else if c != ' ' {
        content := content + [c];
      }
    }
    if nbWords >= limit {
      content := CleanBeforeYield(content);
      yielded := yielded + [content];
      content := "";
      nbWords := 0;
    }
    r := Stripper(content, insideBody, mightBeTag, pending, pendingSpaces, nbWords, yielded);
  }

  /**
   * The root `extract_content_generator`: every char of every line goes
   * through the stripper; a line that cannot be read panics.
   */
  method ExtractContentFromLines(lines: seq<LineRead>, nbWordsPerYield: Option<nat>, v: Variant)
    returns (yielded: seq<string>, completion: Completion)
    ensures (yielded, completion) == ExtractFromLines(lines, nbWordsPerYield, v)
    ensures completion == Panicked <==> LinesFail(lines)
    ensures completion == Completed ==> |yielded| > 0
    ensures ChunksInv(yielded) && |Concat(yielded)| <= |LinesText(lines)|
  {
    var limit := if nbWordsPerYield.Some? then nbWordsPerYield.value else DEFAULT_NB_WORDS_PER_YIELD;
    var s := Initial;
    assert var (chunks, completion) := ExtractFromLines(lines, nbWordsPerYield, v);
           && (completion == Panicked <==> LinesFail(lines)) && (completion == Completed ==> |chunks| > 0)
           && ChunksInv(chunks) && |Concat(chunks)| <= |LinesText(lines)| by {
      ExtractFromLinesProperties(lines, nbWordsPerYield, v);
    }
    var i := 0;
    while i < |lines|
      invariant 0 <= i <= |lines|
      invariant RunLines(Initial, lines, limit, v) == RunLines(s, lines[i..], limit, v)
    {
      assert lines[i..][1..] == lines[i + 1..];
      if lines[i].LineFailed? {
        return s.yielded, Panicked;
      }
      var text := lines[i].text;
      ghost var start := s;
      var j := 0;
      while j < |text|
        invariant 0 <= j <= |text|
        invariant Feed(start, text, limit, v) == Feed(s, text[j..], limit, v)
      {
        assert text[j..][1..] == text[j + 1..];
        s := ProcessChar(s, text[j], limit, v);
        j := j + 1;
      }
      i := i + 1;
    }
    yielded := s.yielded + [CleanBeforeYield(s.content)];
    completion := Completed;
  }

  /**
   * The service use case: chars are pulled until `Ok(None)`; an `Err`
   * panics.
   */
  method ExtractContentFromPulls(pulls: seq<Pulled>, nbWordsPerYield: Option<nat>, v: Variant)
    returns (yielded: seq<string>, completion: Completion)
    ensures (yielded, completion) == ExtractFromPulls(pulls, nbWordsPerYield, v)
    ensures completion == Panicked <==> PullsFail(pulls)
    ensures completion == Completed ==> |yielded| > 0
    ensures ChunksInv(yielded) && |Concat(yielded)| <= |PulledText(pulls)|
  {
    var limit := if nbWordsPerYield.Some? then nbWordsPerYield.value else DEFAULT_NB_WORDS_PER_YIELD;
    var s := Initial;
    assert var (chunks, completion) := ExtractFromPulls(pulls, nbWordsPerYield, v);
           && (completion == Panicked <==> PullsFail(pulls)) && (completion == Completed ==> |chunks| > 0)
           && ChunksInv(chunks) && |Concat(chunks)| <= |PulledText(pulls)| by {
      ExtractFromPullsProperties(pulls, nbWordsPerYield, v);
    }
    var pos := 0;
    while pos < |pulls|
      invariant 0 <= pos <= |pulls|
      invariant RunPulls(Initial, pulls, limit, v) == RunPulls(s, pulls[pos..], limit, v)
    {
      assert pulls[pos..][1..] == pulls[pos + 1..];
      if pulls[pos].Exhausted? {
        assert RunPulls(s, pulls[pos..], limit, v) == (s, Completed);
        break;
      } else if pulls[pos].PullFailed? {
        assert RunPulls(s, pulls[pos..], limit, v) == (s, Panicked);
        return s.yielded, Panicked;
      }
      s := ProcessChar(s, pulls[pos].c, limit, v);
      pos := pos + 1;
    }
    yielded := s.yielded + [CleanBeforeYield(s.content)];
    completion := Completed;
  }
}
