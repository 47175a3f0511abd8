/**
 * `EpubSourceReader`: a byte reader over the chapters of an EPUB that loads
 * the first chapter when it is opened, then moves on with the same guarded
 * step as `EpubReader`.
 */
module EpubSource {
  import opened Wrappers
  import opened Utf8
  import opened CharBuffer
  import opened EpubSpine

  class EpubSourceReader {
    const spine: seq<Chapter>
    var cursor: Cursor
    var chars: seq<char>
    var index: nat
    /** The chapters loaded so far, in order, the one loaded on opening first. */
    ghost var loaded: seq<nat>

    ghost predicate Valid()
      reads this
    {
      && index <= |chars|
      && (WellFormed(spine) ==> Settled(spine, cursor)
                                && loaded + Delivered(spine, cursor) == [0] + Delivered(spine, Cursor(0, "")))
    }

    constructor Opened(spine: seq<Chapter>, first: string)
      ensures Valid() && this.spine == spine && loaded == [0]
      ensures cursor == Cursor(0, "") && chars == first && index == 0
    {
      this.spine := spine;
      cursor := Cursor(0, "");
      chars := first;
      index := 0;
      loaded := [0];
    }

    /**
     * `try_new`: the mapped document error, `NoContent` when the first
     * chapter cannot be read, or a reader holding the first chapter's chars
     * with an empty previous id.
     */
    static method TryNew(doc: Result<seq<Chapter>, DocError>) returns (r: Result<EpubSourceReader, TryNewError>)
      ensures r.Err? <==> EpubSpine.TryNew(doc).Err?
      ensures r.Err? ==> r.error == EpubSpine.TryNew(doc).error
      ensures r.Ok? ==> && doc.Ok? && fresh(r.value) && r.value.Valid() && r.value.spine == doc.value
                        && r.value.chars == EpubSpine.TryNew(doc).value && r.value.index == 0
                        && r.value.cursor == Cursor(0, "") && r.value.loaded == [0]
    {
      var first := EpubSpine.TryNew(doc);
      if first.Err? {
        return Err(first.error);
      }
      var reader := new EpubSourceReader.Opened(doc.value, first.value);
      return Ok(reader);
    }

    /**
     * `read`: when the cached chars are used up, takes the guarded step to
     * the next chapter (returning 0 when it ends the reading); then copies
     * whole chars into `buf`.
     */
    method Read(buf: array<byte>) returns (n: nat)
      requires Valid()
      modifies this, buf
      ensures Valid()
      ensures n <= buf.Length && (index < |chars| ==> n + Utf8Len(chars[index]) > buf.Length)
      ensures old(index) < |old(chars)| ==>
                && cursor == old(cursor) && chars == old(chars) && loaded == old(loaded)
                && old(index) <= index && buf[..n] == EncodeAll(chars[old(index)..index])
                && buf[n..] == old(buf[n..])
      ensures old(index) >= |old(chars)| ==>
                var a := Advance(spine, old(cursor));
                && cursor == a.cursor
                && (a.Ended? ==> && n == 0 && chars == old(chars) && index == old(index)
                                 && loaded == old(loaded) && buf[..] == old(buf[..]))
                && (a.Loaded? ==> && chars == a.chars && loaded == old(loaded) + [cursor.current]
                                  && buf[..n] == EncodeAll(chars[..index]) && buf[n..] == old(buf[n..]))
      ensures buf.Length >= 4 && old(index) < |old(chars)| ==> old(index) < index
    {
      if index >= |chars| {
        var ended := LoadNextChapter();
        if ended {
          return 0;
        }
      }
      var start := index;
      n, index := Fill(chars, index, buf);
      if buf.Length >= 4 && start < |chars| {
        FourBytesFitAnyChar(chars, start, index, n, buf.Length);
      }
    }

    /** The guarded step of `read` to the next chapter; `ended` when it returns 0. */
    method LoadNextChapter() returns (ended: bool)
      requires Valid()
      modifies this
      ensures Valid()
      ensures var a := Advance(spine, old(cursor));
              && cursor == a.cursor && ended == a.Ended?
              && (a.Ended? ==> chars == old(chars) && index == old(index) && loaded == old(loaded))
              && (a.Loaded? ==> chars == a.chars && index == 0 && loaded == old(loaded) + [cursor.current])
    {
      ghost var a := Advance(spine, cursor);
      if WellFormed(spine) {
        AdvanceAccounted(spine, [0] + Delivered(spine, Cursor(0, "")), loaded, cursor);
      }
      var next := GoNext(spine, cursor.current);
      var content := CurrentStr(spine, next);
      if content.None? {
        cursor := cursor.(current := next);
        return true;
      }
      var id := CurrentId(spine, next).value;
      if id == cursor.previousId {
        cursor := cursor.(current := next);
        return true;
      }
      assert a == Loaded(Cursor(next, id), content.value);
      cursor := Cursor(next, id);
      loaded := loaded + [next];
      chars := content.value;
      index := 0;
      return false;
    }
  }

  /**
   * Over all its reads, a reader opened on a well-formed one-chapter book
   * loads that chapter twice, as written.
   */
  lemma OneChapterLoadedTwice(r: EpubSourceReader)
    requires r.Valid() && WellFormed(r.spine) && |r.spine| == 1
    ensures r.loaded + Delivered(r.spine, r.cursor) == [0, 0]
  {
    SingleChapterRepeated(r.spine);
  }
}
