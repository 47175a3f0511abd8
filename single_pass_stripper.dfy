/**
 * `extract_content`: the single-pass HTML stripper that turns the text of an
 * XHTML document into the text of its body, in one `String`.
 */
module SinglePassStripper {

  /** The element names after which a space separates the text. */
  const HTML_ELEMENTS_NEEDING_A_SPACE: set<string> :=
    {"p", "h1", "h2", "h3", "h4", "h5", "h6", "li", "ul", "ol", "blockquote"}

  datatype Stripper = Stripper(
    extracted: string,
    insideBody: bool,
    mightBeTag: bool,
    previousIsOpening: bool,
    pending: string)

  const Initial: Stripper := Stripper("", false, false, false, "")

  predicate EndsWithSpace(s: string)
  {
    |s| > 0 && s[|s| - 1] == ' '
  }

  /** Whether closing the element `name` adds a space, with the body flag it leaves. */
  predicate SpaceAfter(extracted: string, insideBody: bool, name: string)
  {
    insideBody && name in HTML_ELEMENTS_NEEDING_A_SPACE && |extracted| > 0 && !EndsWithSpace(extracted)
  }

  function BodyAfter(insideBody: bool, name: string): bool
  {
    if name == "body" then true else if name == "/body" then false else insideBody
  }

  function Step(s: Stripper, c: char): Stripper
  {
    if s.mightBeTag then
      if c == '<' then
        s.(previousIsOpening := true,
           extracted := if s.insideBody then s.extracted + "<" + s.pending else s.extracted,
           pending := "")
      else if c == '>' then
        var body := BodyAfter(s.insideBody, s.pending);
        s.(insideBody := body,
           extracted := if SpaceAfter(s.extracted, body, s.pending) then s.extracted + " " else s.extracted,
           mightBeTag := false, previousIsOpening := false, pending := "")
      else if s.previousIsOpening && c == ' ' then
        s.(mightBeTag := false, previousIsOpening := false,
           extracted := if s.insideBody then s.extracted + s.pending else s.extracted,
           pending := "")
      else
        s.(pending := s.pending + [c], previousIsOpening := false)
    else if c == '<' then
      s.(previousIsOpening := true, mightBeTag := true)
    else if s.insideBody then
      s.(extracted := s.extracted + [c])
    else
      s
  }

  function Feed(s: Stripper, cs: string): Stripper
    decreases |cs|
  {
    if cs == [] then s else Feed(Step(s, cs[0]), cs[1..])
  }

  /** What `extract_content` returns; an element still open at the end is dropped. */
  function ExtractContent(content: string): string
  {
    Feed(Initial, content).extracted
  }

  // ---- Invariant and size ----

  predicate Inv(s: Stripper)
  {
    && (!s.mightBeTag ==> s.pending == [] && !s.previousIsOpening)
    && (s.previousIsOpening ==> s.pending == [])
  }

  /** The chars given back so far, and those an open element may still give back. */
  function Size(s: Stripper): nat
  {
    |s.extracted| + if s.mightBeTag then 1 + |s.pending| else 0
  }

  lemma StepKeeps(s: Stripper, c: char)
    requires Inv(s)
    ensures Inv(Step(s, c))
    ensures Size(Step(s, c)) <= Size(s) + 1
  {
  }

  lemma {:induction false} FeedKeeps(s: Stripper, cs: string)
    requires Inv(s)
    ensures Inv(Feed(s, cs))
    ensures Size(Feed(s, cs)) <= Size(s) + |cs|
    decreases |cs|
  {
    if cs != [] {
      StepKeeps(s, cs[0]);
      FeedKeeps(Step(s, cs[0]), cs[1..]);
    }
  }

  /** Each char of the input gives at most one char of the output. */
  lemma ExtractContentShorter(content: string)
    ensures |ExtractContent(content)| <= |content|
  {
    FeedKeeps(Initial, content);
  }

  lemma {:induction false} FeedAppend(s: Stripper, a: string, b: string)
    ensures Feed(s, a + b) == Feed(Feed(s, a), b)
    decreases |a|
  {
    if a == [] {
      assert a + b == b;
    } else {
      assert (a + b)[0] == a[0];
      assert (a + b)[1..] == a[1..] + b;
      FeedAppend(Step(s, a[0]), a[1..], b);
    }
  }

  // ---- What chars and elements do ----

  /** Outside the body nothing reaches the output. */
  lemma OutsideBodyEmitsNothing(s: Stripper, c: char)
    requires !s.insideBody
    ensures Step(s, c).extracted == s.extracted
  {
  }

  /** A `<` while an element is open gives back the previous `<` and the text after it. */
  lemma SecondOpeningGivesBack(s: Stripper)
    requires s.mightBeTag && s.insideBody
    ensures Step(s, '<').extracted == s.extracted + "<" + s.pending
    ensures Step(s, '<').mightBeTag && Step(s, '<').pending == []
  {
  }

  /** A `<` right before a space is dropped with the space. */
  lemma OpeningThenSpaceDropped(s: Stripper)
    requires Inv(s) && !s.mightBeTag
    ensures Feed(s, "< ") == s
  {
    assert Feed(s, "< ") == Step(Step(s, '<'), ' ');
  }

  /** Text with no `<` is copied inside the body and dropped outside it. */
  lemma {:induction false} TextCopied(s: Stripper, text: string)
    requires Inv(s) && !s.mightBeTag
    requires forall k :: 0 <= k < |text| ==> text[k] != '<'
    ensures Feed(s, text) == s.(extracted := if s.insideBody then s.extracted + text else s.extracted)
    decreases |text|
  {
    if text != [] {
      TextCopied(Step(s, text[0]), text[1..]);
      assert text == [text[0]] + text[1..];
    }
  }

  lemma {:induction false} ReadName(t: Stripper, name: string, n: nat)
    requires n <= |name| && forall k :: 0 <= k < |name| ==> name[k] != '<' && name[k] != '>'
    requires t.mightBeTag && t.pending == name[..n] && t.previousIsOpening == (n == 0)
    requires n == 0 ==> |name| == 0 || name[0] != ' '
    ensures Feed(t, name[n..]) == t.(pending := name, previousIsOpening := |name| == 0)
    decreases |name| - n
  {
    if n == |name| {
      assert name[..n] == name;
    } else {
      assert name[n..][0] == name[n] && name[n..][1..] == name[n + 1..];
      assert name[..n + 1] == name[..n] + [name[n]];
      ReadName(Step(t, name[n]), name, n + 1);
    }
  }

  /**
   * An element `<name>` is removed: the output gains at most the space a
   * block element asks for, and the body flag follows `body` and `/body`.
   */
  lemma TagRemoved(s: Stripper, name: string)
    requires Inv(s) && !s.mightBeTag
    requires forall k :: 0 <= k < |name| ==> name[k] != '<' && name[k] != '>'
    requires |name| == 0 || name[0] != ' '
    ensures var body := BodyAfter(s.insideBody, name);
            Feed(s, "<" + name + ">") ==
            s.(insideBody := body,
               extracted := if SpaceAfter(s.extracted, body, name) then s.extracted + " " else s.extracted)
  {
    var t := Step(s, '<');
    assert name[..0] == [] && name[0..] == name;
    ReadName(t, name, 0);
    FeedAppend(s, "<", name);
    FeedAppend(s, "<" + name, ">");
    assert Feed(s, "<") == t;
    var u := t.(pending := name, previousIsOpening := |name| == 0);
    assert Feed(u, ">") == Step(u, '>');
  }

  /** No closing element asks for a space. */
  lemma ClosingNeedsNoSpace(name: string)
    requires |name| > 0 && name[0] == '/'
    ensures name !in HTML_ELEMENTS_NEEDING_A_SPACE
  {
  }

  predicate NoOpening(text: string)
  {
    forall k :: 0 <= k < |text| ==> text[k] != '<'
  }

  /** An element that does not open the body is dropped outside it. */
  lemma Dropped(name: string, tag: string)
    requires tag == "<" + name + ">" && |name| > 0 && name[0] != ' '
    requires forall k :: 0 <= k < |name| ==> name[k] != '<' && name[k] != '>'
    requires name != "body"
    ensures Feed(Initial, tag) == Initial
  {
    TagRemoved(Initial, name);
  }

  lemma HeadOpened()
    ensures Feed(Initial, "<html>" + "<head>" + "<title>") == Initial
  {
    HtmlHeadOpened();
    Dropped("title", "<title>");
    BothDropped("<html>" + "<head>", "<title>");
  }

  lemma HtmlHeadOpened()
    ensures Feed(Initial, "<html>" + "<head>") == Initial
  {
    Dropped("html", "<html>");
    Dropped("head", "<head>");
    BothDropped("<html>", "<head>");
  }

  lemma BothDropped(a: string, b: string)
    requires Feed(Initial, a) == Initial && Feed(Initial, b) == Initial
    ensures Feed(Initial, a + b) == Initial
  {
    FeedAppend(Initial, a, b);
  }

  lemma HeadClosed()
    ensures Feed(Initial, "</title>" + "</head>") == Initial
  {
    TitleEndDropped();
    HeadEndDropped();
    BothDropped("</title>", "</head>");
  }

  lemma TitleEndDropped()
    ensures Feed(Initial, "</title>") == Initial
  {
    Dropped("/title", "</title>");
  }

  lemma HeadEndDropped()
    ensures Feed(Initial, "</head>") == Initial
  {
    Dropped("/head", "</head>");
  }

  /** Before the body, the head and its title are dropped. */
  lemma HeadDropped(title: string)
    requires NoOpening(title)
    ensures Feed(Initial, "<html>" + "<head>" + "<title>" + title + "</title>" + "</head>") == Initial
  {
    var p1 := "<html>" + "<head>" + "<title>";
    HeadOpened();
    TextCopied(Initial, title);
    FeedAppend(Initial, p1, title);
    HeadClosed();
    FeedAppend(Initial, p1 + title, "</title>" + "</head>");
    assert p1 + title + ("</title>" + "</head>") == p1 + title + "</title>" + "</head>";
  }

  /** A paragraph between `<body><p>` and `</p></body>` comes out as it is. */
  lemma ParagraphKept(s: Stripper, paragraph: string)
    requires s == Initial.(insideBody := true) && NoOpening(paragraph)
    ensures Feed(s, "<p>" + paragraph + "</p>" + "</body>") == Initial.(extracted := paragraph)
  {
    var t := s.(extracted := paragraph);
    ParagraphOpened(s, paragraph);
    ClosingNeedsNoSpace("/p");
    TagRemoved(t, "/p");
    assert "<" + "/p" + ">" == "</p>";
    FeedAppend(s, "<p>" + paragraph, "</p>");
    ClosingNeedsNoSpace("/body");
    TagRemoved(t, "/body");
    assert "<" + "/body" + ">" == "</body>";
    FeedAppend(s, "<p>" + paragraph + "</p>", "</body>");
  }

  lemma ParagraphOpened(s: Stripper, paragraph: string)
    requires s == Initial.(insideBody := true) && NoOpening(paragraph)
    ensures Feed(s, "<p>" + paragraph) == s.(extracted := paragraph)
  {
    TagRemoved(s, "p");
    assert "<" + "p" + ">" == "<p>";
    TextCopied(s, paragraph);
    FeedAppend(s, "<p>", paragraph);
  }

  /**
   * The shape of the documented example: the body's paragraph comes out
   * as it is, and the title is dropped.
   */
  lemma DocumentShape(title: string, paragraph: string)
    requires NoOpening(title) && NoOpening(paragraph)
    ensures ExtractContent("<html>" + "<head>" + "<title>" + title + "</title>" + "</head>"
                           + "<body>" + "<p>" + paragraph + "</p>" + "</body>" + "</html>") == paragraph
  {
    var upToBody := "<html>" + "<head>" + "<title>" + title + "</title>" + "</head>"
                    + "<body>" + "<p>" + paragraph + "</p>" + "</body>";
    BodyKept(title, paragraph);
    HtmlClosed(paragraph);
    FeedAppend(Initial, upToBody, "</html>");
  }

  /** Up to `</body>`, the output is the paragraph and the body is closed again. */
  lemma BodyKept(title: string, paragraph: string)
    requires NoOpening(title) && NoOpening(paragraph)
    ensures Feed(Initial, "<html>" + "<head>" + "<title>" + title + "</title>" + "</head>"
                          + "<body>" + "<p>" + paragraph + "</p>" + "</body>")
            == Initial.(extracted := paragraph)
  {
    var withBody := "<html>" + "<head>" + "<title>" + title + "</title>" + "</head>" + "<body>";
    var body := "<p>" + paragraph + "</p>" + "</body>";
    BodyOpened(title);
    ParagraphKept(Initial.(insideBody := true), paragraph);
    FeedAppend(Initial, withBody, body);
    assert withBody + body == withBody + "<p>" + paragraph + "</p>" + "</body>";
  }

  /** After the head, `<body>` opens the body. */
  lemma BodyOpened(title: string)
    requires NoOpening(title)
    ensures Feed(Initial, "<html>" + "<head>" + "<title>" + title + "</title>" + "</head>" + "<body>")
            == Initial.(insideBody := true)
  {
    var head := "<html>" + "<head>" + "<title>" + title + "</title>" + "</head>";
    HeadDropped(title);
    TagRemoved(Initial, "body");
    assert "<" + "body" + ">" == "<body>";
    FeedAppend(Initial, head, "<body>");
  }

  /** Once the body is closed, `</html>` changes nothing. */
  lemma HtmlClosed(extracted: string)
    ensures Feed(Initial.(extracted := extracted), "</html>") == Initial.(extracted := extracted)
  {
    ClosingNeedsNoSpace("/html");
    TagRemoved(Initial.(extracted := extracted), "/html");
    assert "<" + "/html" + ">" == "</html>";
  }

  /** The documented example. */
  lemma DocumentedExample()
    ensures ExtractContent("<html><head><title>Test</title></head><body><p>Test</p></body></html>") == "Test"
  {
    DocumentShape("Test", "Test");
    ExampleHead();
    ExampleBody();
  }

  lemma ExampleHead()
    ensures "<html>" + "<head>" + "<title>" + "Test" + "</title>" + "</head>"
            == "<html><head><title>Test</title></head>"
  {
    assert "<html>" + "<head>" == "<html><head>";
    assert "<html><head>" + "<title>" == "<html><head><title>";
    assert "<html><head><title>" + "Test" == "<html><head><title>Test";
    assert "<html><head><title>Test" + "</title>" == "<html><head><title>Test</title>";
  }

  lemma ExampleBody()
    ensures "<html><head><title>Test</title></head>" + "<body>" + "<p>" + "Test" + "</p>" + "</body>" + "</html>"
            == "<html><head><title>Test</title></head><body><p>Test</p></body></html>"
  {
    var h := "<html><head><title>Test</title></head>";
    assert h + "<body>" == "<html><head><title>Test</title></head><body>";
    assert h + "<body>" + "<p>" == "<html><head><title>Test</title></head><body><p>";
    assert h + "<body>" + "<p>" + "Test" == "<html><head><title>Test</title></head><body><p>Test";
    assert h + "<body>" + "<p>" + "Test" + "</p>" == "<html><head><title>Test</title></head><body><p>Test</p>";
    assert h + "<body>" + "<p>" + "Test" + "</p>" + "</body>"
        == "<html><head><title>Test</title></head><body><p>Test</p></body>";
  }

  /** The loop of `extract_content`. */
  method Extract(content: string) returns (extracted: string)
    ensures extracted == ExtractContent(content)
    ensures |extracted| <= |content|
  {
    extracted := "";
    var insideBody := false;
    var mightBeTag := false;
    var previousIsOpening := false;
    var pending: string := "";
    var i := 0;
    while i < |content|
      invariant 0 <= i <= |content|
      invariant Feed(Initial, content) ==
                Feed(Stripper(extracted, insideBody, mightBeTag, previousIsOpening, pending), content[i..])
    {
      assert content[i..][1..] == content[i + 1..];
      var c := content[i];
      if mightBeTag {
        if c == '<' {
          previousIsOpening := true;
          if insideBody {
            extracted := extracted + "<" + pending;
          }
          pending := "";
        } else if c == '>' {
          if pending == "body" {
            insideBody := true;
          } else if pending == "/body" {
            insideBody := false;
          }
          if insideBody && pending in HTML_ELEMENTS_NEEDING_A_SPACE
             && |extracted| > 0 && extracted[|extracted| - 1] != ' ' {
            extracted := extracted + " ";
          }
          mightBeTag := false;
          previousIsOpening := false;
          pending := "";
        } else if previousIsOpening && c == ' ' {
          mightBeTag := false;
          previousIsOpening := false;
          if insideBody {
            extracted := extracted + pending;
          }
          pending := "";
        } else {
          pending := pending + [c];
          previousIsOpening := false;
        }
      } else if c == '<' {
        previousIsOpening := true;
        mightBeTag := true;
      } else if insideBody {
        extracted := extracted + [c];
      }
      i := i + 1;
    }
    ExtractContentShorter(content);
  }
}
