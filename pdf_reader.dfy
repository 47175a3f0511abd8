/**
 * `PdfReader`: a byte reader over the text of a PDF, page by page, that
 * skips pages without text and records in its metadata the page the bytes
 * come from.
 */
module PdfReading {
  import opened Wrappers
  import opened Json
  import opened Utf8
  import opened CharBuffer

  const META_KEY := "pdf"
  const META_KEY_DEFAULT_INITIAL := "initial"
  const META_KEY_PAGE := "page"
  const READ_ERROR_PREFIX := "Error while caching next PDF content: "

  /**
   * The document as `lopdf` gives it: `extract_text` of page `k` (numbered
   * from 1) is `pages[k - 1]`, its text or an error message.
   */
  type Pages = seq<Result<string, string>>

  /** What `go_next_content` leaves: the page reached, the chars cached, the metadata and its answer. */
  datatype Paged = Paged(page: nat, chars: string, metadata: Json, result: Result<nat, string>)

  /**
   * `go_next_content` from page `current`: the next pages are extracted in
   * order until one has text, the last page is passed, or an extraction
   * fails. The answer is the byte length of the text found, 0 if none.
   */
  function NextPage(pages: Pages, current: nat, chars: string, metadata: Json): (r: Paged)
    ensures current <= r.page
    ensures current <= |pages| ==> r.page <= |pages|
    ensures r.result == Ok(0) ==> && r.chars == chars && r.metadata == metadata
                                  && r.page == (if current < |pages| then |pages| else current)
                                  && forall k :: current <= k < |pages| ==> pages[k] == Ok([])
    ensures r.result.Ok? && r.result.value > 0 ==>
              && 0 < r.page <= |pages| && pages[r.page - 1] == Ok(r.chars) && r.chars != []
              && r.result.value == |EncodeAll(r.chars)|
              && r.metadata == Insert(metadata, META_KEY_PAGE, Num(r.page))
    ensures r.result.Err? ==> 0 < r.page <= |pages| && pages[r.page - 1] == Err(r.result.error)
    decreases |pages| - current
  {
    if current >= |pages| then Paged(current, chars, metadata, Ok(0))
    else
      var page := current + 1;
      var content := pages[page - 1];
      if content.Err? then Paged(page, chars, metadata, Err(content.error))
      else if content.value == [] then NextPage(pages, page, chars, metadata)
      else
        EncodedLenIsLength(content.value);
        Paged(page, content.value, Insert(metadata, META_KEY_PAGE, Num(page)), Ok(EncodedLen(content.value)))
  }

  /** The text of the pages after page `current`, in page order, up to the first extraction error. */
  function Text(pages: Pages, current: nat): (r: (string, Ending))
    ensures r.1.Finished? || r.1.Failed?
    decreases |pages| - current
  {
    if current >= |pages| then ("", Finished)
    else
      match pages[current]
      case Err(m) => ("", Failed(m))
      case Ok(s) => var rest := Text(pages, current + 1); (s + rest.0, rest.1)
  }

  /** Each call finds the next page with text: its text starts what is left; an error or a 0 means nothing is. */
  lemma {:induction false} NextPageMatchesText(pages: Pages, current: nat, chars: string, metadata: Json)
    ensures var r := NextPage(pages, current, chars, metadata);
            && (r.result.Err? ==> Text(pages, current) == ("", Failed(r.result.error)))
            && (r.result == Ok(0) ==> Text(pages, current) == ("", Finished))
            && (r.result.Ok? && r.result.value > 0 ==>
                  Text(pages, current) == (r.chars + Text(pages, r.page).0, Text(pages, r.page).1))
    decreases |pages| - current
  {
    if current < |pages| && pages[current].Ok? {
      var rest := Text(pages, current + 1);
      assert Text(pages, current) == (pages[current].value + rest.0, rest.1);
      if pages[current].value == [] {
        NextPageMatchesText(pages, current + 1, chars, metadata);
        assert pages[current].value + rest.0 == rest.0;
      }
    }
  }

  /** Every page with text is handed out once, in order: the pages found from `current` on. */
  function PagesWithText(pages: Pages, current: nat): (r: seq<nat>)
    ensures forall i :: 0 <= i < |r| ==> current < r[i] <= |pages| && pages[r[i] - 1].Ok? && pages[r[i] - 1].value != []
    ensures forall i :: 0 < i < |r| ==> r[i - 1] < r[i]
    decreases |pages| - current
  {
    var r := NextPage(pages, current, [], Null);
    if r.result.Ok? && r.result.value > 0 then
      var rest := PagesWithText(pages, r.page);
      var found := [r.page] + rest;
      assert forall i :: 0 < i < |found| ==> found[i] == rest[i - 1];
      found
    else []
  }

  /** Three pages with text and no error come out as three pieces, pages 1, 2 and 3, in that order. */
  lemma ThreePages(a: string, b: string, c: string)
    requires a != [] && b != [] && c != []
    ensures PagesWithText([Ok(a), Ok(b), Ok(c)], 0) == [1, 2, 3]
    ensures Text([Ok(a), Ok(b), Ok(c)], 0) == (a + b + c, Finished)
  {
    var pages: Pages := [Ok(a), Ok(b), Ok(c)];
    assert NextPage(pages, 3, [], Null).result == Ok(0);
    assert PagesWithText(pages, 3) == [];
    assert PagesWithText(pages, 2) == [3];
    assert PagesWithText(pages, 1) == [2, 3];
    assert c + "" == c;
    assert Text(pages, 2) == (c, Finished);
    assert Text(pages, 1) == (b + c, Finished);
    assert a + (b + c) == a + b + c;
  }

  class PdfReader {
    const pages: Pages
    const totalPages: nat
    var currentPage: nat
    var chars: string
    var index: nat
    var metadata: Json
    /** The chars handed out so far. */
    ghost var read: string
    /** Whether a read has answered 0 or failed because no page with text is left. */
    ghost var stopped: bool

    ghost predicate Valid()
      reads this
    {
      && totalPages == |pages| && currentPage <= totalPages && index <= |chars|
      && (!stopped ==>
            && read + chars[index..] + Text(pages, currentPage).0 == Text(pages, 0).0
            && Text(pages, currentPage).1 == Text(pages, 0).1)
    }

    constructor Loaded(pages: Pages, initialMeta: Option<Json>)
      ensures Valid() && this.pages == pages && !stopped && read == ""
      ensures currentPage == 0 && chars == "" && index == 0
      ensures metadata == NormalizeInitial(initialMeta, META_KEY_DEFAULT_INITIAL)
    {
      this.pages := pages;
      totalPages := |pages|;
      currentPage := 0;
      chars, index := "", 0;
      metadata := NormalizeInitial(initialMeta, META_KEY_DEFAULT_INITIAL);
      read, stopped := "", false;
    }

    /**
     * `try_from_reader`: the loading error, or a reader on page 0 of the
     * document with its initial metadata normalised.
     */
    static method TryFromReader(document: Result<Pages, string>, initialMeta: Option<Json>)
      returns (r: Result<PdfReader, string>)
      ensures document.Err? ==> r.Err? && r.error == document.error
      ensures document.Ok? ==> && r.Ok? && fresh(r.value) && r.value.Valid() && r.value.pages == document.value
                               && r.value.currentPage == 0 && r.value.chars == "" && r.value.read == ""
                               && r.value.metadata == NormalizeInitial(initialMeta, META_KEY_DEFAULT_INITIAL)
    {
      if document.Err? {
        return Err(document.error);
      }
      var reader := new PdfReader.Loaded(document.value, initialMeta);
      return Ok(reader);
    }

    /** `update_metadata`. */
    method UpdateMetadata(key: string, value: Json)
      modifies this
      ensures metadata == Insert(old(metadata), key, value)
      ensures currentPage == old(currentPage) && chars == old(chars) && index == old(index)
      ensures read == old(read) && stopped == old(stopped)
    {
      if metadata.Obj? {
        metadata := Obj(metadata.fields[key := value]);
      } else {
        metadata := Obj(map[key := value]);
      }
    }

    /** `go_next_content`: resets the index, then moves through the pages as `NextPage` says. */
    method GoNextContent() returns (r: Result<nat, string>)
      requires currentPage <= totalPages == |pages|
      modifies this
      ensures var p := NextPage(pages, old(currentPage), old(chars), old(metadata));
              currentPage == p.page && chars == p.chars && metadata == p.metadata && r == p.result
      ensures index == 0 && read == old(read) && stopped == old(stopped)
    {
      index := 0;
      var contentLen := 0;
      while currentPage < totalPages && contentLen == 0
        invariant currentPage <= totalPages && index == 0 && read == old(read) && stopped == old(stopped)
        invariant contentLen == 0 ==> NextPage(pages, old(currentPage), old(chars), old(metadata))
                                      == NextPage(pages, currentPage, chars, metadata)
        invariant contentLen > 0 ==> NextPage(pages, old(currentPage), old(chars), old(metadata))
                                     == Paged(currentPage, chars, metadata, Ok(contentLen))
        decreases totalPages - currentPage
      {
        currentPage := currentPage + 1;
        var content := pages[currentPage - 1];
        if content.Err? {
          return Err(content.error);
        }
        EncodedLenIsLength(content.value);
        contentLen := EncodedLen(content.value);
        if contentLen == 0 {
          continue;
        }
        chars := content.value;
        UpdateMetadata(META_KEY_PAGE, Num(currentPage));
      }
      return Ok(contentLen);
    }

    /**
     * `read`: when the cache is used up, caches the next page with text (an
     * extraction error becomes `InvalidData`, no page left answers 0); then
     * copies whole chars into `buf`. Once a read answers 0 or fails that
     * way, the chars handed out are the text of every page, in order.
     */
    method Read(buf: array<byte>) returns (r: Result<nat, ReadError>)
      requires Valid()
      modifies this, buf
      ensures Valid()
      ensures currentPage >= old(currentPage)
      ensures |old(read)| <= |read| && read[..|old(read)|] == old(read)
      ensures r.Ok? ==> r.value <= buf.Length && buf[..r.value] == EncodeAll(read[|old(read)|..])
                        && buf[r.value..] == old(buf[r.value..])
      ensures old(index) < |old(chars)| ==> && r.Ok? && currentPage == old(currentPage) && chars == old(chars)
                                            && metadata == old(metadata) && stopped == old(stopped)
      ensures old(index) >= |old(chars)| ==>
                var p := NextPage(pages, old(currentPage), old(chars), old(metadata));
                && currentPage == p.page && chars == p.chars && metadata == p.metadata
                && (p.result.Err? ==> r == Err(InvalidData(READ_ERROR_PREFIX + p.result.error)))
                && (p.result == Ok(0) ==> r == Ok(0) && index == 0)
                && (p.result.Ok? && p.result.value > 0 ==>
                      && r.Ok? && metadata.Obj? && metadata.fields[META_KEY_PAGE] == Num(currentPage)
                      && pages[currentPage - 1] == Ok(chars)
                      && (buf.Length >= |EncodeAll(chars)| ==> index == |chars| && read[|old(read)|..] == chars))
                && stopped == (old(stopped) || p.result.Err? || p.result == Ok(0))
      ensures !old(stopped) && stopped ==>
                && read == Text(pages, 0).0
                && (r.Err? <==> Text(pages, 0).1.Failed?)
      ensures buf.Length >= 4 && r == Ok(0) ==> stopped
    {
      ghost var next := NextPage(pages, currentPage, chars, metadata);
      if index >= |chars| {
        var contentLen := CacheNextPage();
        if contentLen.Err? {
          return Err(InvalidData(READ_ERROR_PREFIX + contentLen.error));
        }
        if contentLen.value == 0 {
          return Ok(0);
        }
      }
      var n := CopyOut(buf);
      return Ok(n);
    }

    /** The second half of `read`: the fill loop, copying whole chars from the cache into `buf`. */
    method CopyOut(buf: array<byte>) returns (n: nat)
      requires Valid()
      modifies this`index, this`read, buf
      ensures Valid()
      ensures old(index) <= index <= |chars| && read == old(read) + chars[old(index)..index]
      ensures n <= buf.Length && buf[..n] == EncodeAll(chars[old(index)..index]) && buf[n..] == old(buf[n..])
      ensures buf.Length >= 4 && old(index) < |chars| ==> old(index) < index
      ensures old(index) == 0 && buf.Length >= |EncodeAll(chars)| ==> index == |chars|
    {
      var start := index;
      n, index := Fill(chars, index, buf);
      Consumed(read, chars, start, index, Text(pages, currentPage).0);
      read := read + chars[start..index];
      if buf.Length >= 4 && start < |chars| {
        FourBytesFitAnyChar(chars, start, index, n, buf.Length);
      }
      if start == 0 && buf.Length >= |EncodeAll(chars)| {
        assert chars[start..] == chars;
        WholeRestFits(chars, start, index, n, buf.Length);
      }
    }

    /** The first half of `read`: `go_next_content` once the cache is used up. */
    method CacheNextPage() returns (r: Result<nat, string>)
      requires Valid() && index >= |chars|
      modifies this
      ensures Valid()
      ensures var p := NextPage(pages, old(currentPage), old(chars), old(metadata));
              currentPage == p.page && chars == p.chars && metadata == p.metadata && r == p.result
      ensures index == 0 && read == old(read)
      ensures stopped == (old(stopped) || r.Err? || r == Ok(0))
      ensures !old(stopped) && stopped ==> read == Text(pages, 0).0 && (r.Err? <==> Text(pages, 0).1.Failed?)
    {
      ghost var before := currentPage;
      NextPageMatchesText(pages, currentPage, chars, metadata);
      r := GoNextContent();
      if r.Err? || r == Ok(0) {
        stopped := true;
      } else if !stopped {
        Continued(read, Text(pages, before).0, chars, Text(pages, currentPage).0, Text(pages, 0).0);
      }
    }

    /** `get_current_metadata`: the metadata under the `"pdf"` key. */
    function CurrentMetadata(): (r: Json)
      reads this
      ensures r.Obj? && r.fields.Keys == {META_KEY} && r.fields[META_KEY] == metadata
    {
      Singleton(META_KEY, metadata)
    }
  }
}
