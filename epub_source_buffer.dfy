/**
 * `EpubSourceBuffer`: the service's char-by-char source over an EPUB. It
 * loads the first chapter when it is opened; `next` hands out one char at a
 * time and moves to the next chapter with the guarded step of the readers.
 */
module EpubBuffer {
  import opened Wrappers
  import opened EpubSpine

  /** A char and the page it comes from (always 0 for an EPUB). */
  datatype SourceChar = SourceChar(value: char, page: nat)

  /** What `next` works on: the cursor, the chars of the loaded chapter and the index. */
  datatype BufferState = BufferState(cursor: Cursor, chars: string, index: nat)

  /** Chars of the loaded chapter after the index. */
  function Remaining(st: BufferState): nat
  {
    if st.index < |st.chars| then |st.chars| - st.index else 0
  }

  /**
   * `next` as written: the index is moved on before the char is looked up;
   * past the end it loads the next chapter (index 0) and starts over, or
   * ends with `None`.
   */
  function NextChar(spine: seq<Chapter>, st: BufferState): (r: (Option<char>, BufferState))
    ensures r.0.Some? ==> Measure(spine, r.1.cursor) < Measure(spine, st.cursor)
                          || (r.1.cursor == st.cursor && Remaining(r.1) < Remaining(st))
    decreases Measure(spine, st.cursor)
  {
    var i := st.index + 1;
    if i < |st.chars| then (Some(st.chars[i]), st.(index := i))
    else
      match Advance(spine, st.cursor)
      case Ended(c) => (None, BufferState(c, st.chars, i))
      case Loaded(c, cs) => NextChar(spine, BufferState(c, cs, 0))
  }

  /** The chars a caller gets from `st` by calling `next` until it answers `None`. */
  function Stream(spine: seq<Chapter>, st: BufferState): string
    decreases Measure(spine, st.cursor), Remaining(st)
  {
    var (c, st') := NextChar(spine, st);
    if c.None? then [] else [c.value] + Stream(spine, st')
  }

  /** `s` without its first `k` chars. */
  function Drop(s: string, k: nat): (r: string)
    ensures |r| == if k <= |s| then |s| - k else 0
  {
    if k <= |s| then s[k..] else []
  }

  function ChapterText(spine: seq<Chapter>, k: nat): string
  {
    if k < |spine| && spine[k].content.Some? then spine[k].content.value else ""
  }

  /** The texts of chapters `ks`, each without its first `skip` chars, one after the other. */
  function Texts(spine: seq<Chapter>, ks: seq<nat>, skip: nat): string
  {
    if ks == [] then "" else Drop(ChapterText(spine, ks[0]), skip) + Texts(spine, ks[1..], skip)
  }

  /** `next` answers as it would on the chapter it loads. */
  lemma StreamReloads(spine: seq<Chapter>, st: BufferState)
    requires st.index + 1 >= |st.chars| && Advance(spine, st.cursor).Loaded?
    ensures Stream(spine, st) == Stream(spine, BufferState(Advance(spine, st.cursor).cursor, Advance(spine, st.cursor).chars, 0))
  {
  }

  /**
   * As written, the caller gets the rest of the loaded chapter after the
   * index, then every chapter still to be delivered, each without its first
   * char.
   */
  lemma {:induction false} StreamAsWritten(spine: seq<Chapter>, st: BufferState)
    ensures Stream(spine, st) == Drop(st.chars, st.index + 1) + Texts(spine, Delivered(spine, st.cursor), 1)
    decreases Measure(spine, st.cursor), Remaining(st)
  {
    if st.index + 1 < |st.chars| {
      var st' := st.(index := st.index + 1);
      StreamAsWritten(spine, st');
      assert Drop(st.chars, st.index + 1) == [st.chars[st.index + 1]] + Drop(st.chars, st.index + 2);
    } else {
      var a := Advance(spine, st.cursor);
      if a.Loaded? {
        StreamAsWritten(spine, BufferState(a.cursor, a.chars, 0));
        ReloadedAsWritten(spine, st);
      }
    }
  }

  lemma ReloadedAsWritten(spine: seq<Chapter>, st: BufferState)
    requires st.index + 1 >= |st.chars| && Advance(spine, st.cursor).Loaded?
    requires var a := Advance(spine, st.cursor);
             Stream(spine, BufferState(a.cursor, a.chars, 0)) == Drop(a.chars, 1) + Texts(spine, Delivered(spine, a.cursor), 1)
    ensures Stream(spine, st) == Drop(st.chars, st.index + 1) + Texts(spine, Delivered(spine, st.cursor), 1)
  {
    var a := Advance(spine, st.cursor);
    StreamReloads(spine, st);
    var ks := Delivered(spine, st.cursor);
    assert ks == [a.cursor.current] + Delivered(spine, a.cursor);
    assert ks[1..] == Delivered(spine, a.cursor);
    assert ChapterText(spine, a.cursor.current) == a.chars;
  }

  /** As written, a one-chapter book `"ab"` comes out as `"bb"`. */
  lemma OneChapterAsWritten()
    ensures var spine := [Chapter("c1", Some("ab"), "c1.xhtml")];
            Stream(spine, BufferState(Cursor(0, ""), "ab", 0)) == "bb"
  {
    var spine := [Chapter("c1", Some("ab"), "c1.xhtml")];
    StreamAsWritten(spine, BufferState(Cursor(0, ""), "ab", 0));
    SingleChapterRepeated(spine);
    assert Delivered(spine, Cursor(0, "")) == [0];
    assert Texts(spine, [0], 1) == "b";
  }

  /** The corrected `next`: the char at the index is handed out, then the index moves on. */
  function NextCharCorrected(spine: seq<Chapter>, st: BufferState): (r: (Option<char>, BufferState))
    ensures r.0.Some? ==> Measure(spine, r.1.cursor) < Measure(spine, st.cursor)
                          || (r.1.cursor == st.cursor && Remaining(r.1) < Remaining(st))
    decreases Measure(spine, st.cursor)
  {
    if st.index < |st.chars| then (Some(st.chars[st.index]), st.(index := st.index + 1))
    else
      match Advance(spine, st.cursor)
      case Ended(c) => (None, BufferState(c, st.chars, st.index))
      case Loaded(c, cs) => NextCharCorrected(spine, BufferState(c, cs, 0))
  }

  function StreamCorrected(spine: seq<Chapter>, st: BufferState): string
    decreases Measure(spine, st.cursor), Remaining(st)
  {
    var (c, st') := NextCharCorrected(spine, st);
    if c.None? then [] else [c.value] + StreamCorrected(spine, st')
  }

  lemma CorrectedReloads(spine: seq<Chapter>, st: BufferState)
    requires st.index >= |st.chars| && Advance(spine, st.cursor).Loaded?
    ensures StreamCorrected(spine, st)
            == StreamCorrected(spine, BufferState(Advance(spine, st.cursor).cursor, Advance(spine, st.cursor).chars, 0))
  {
  }

  /** Corrected, the caller gets the rest of the loaded chapter, then every chapter still to be delivered, whole. */
  lemma {:induction false} StreamCorrectedWhole(spine: seq<Chapter>, st: BufferState)
    ensures StreamCorrected(spine, st) == Drop(st.chars, st.index) + Texts(spine, Delivered(spine, st.cursor), 0)
    decreases Measure(spine, st.cursor), Remaining(st)
  {
    if st.index < |st.chars| {
      var st' := st.(index := st.index + 1);
      StreamCorrectedWhole(spine, st');
      assert Drop(st.chars, st.index) == [st.chars[st.index]] + Drop(st.chars, st.index + 1);
    } else {
      var a := Advance(spine, st.cursor);
      if a.Loaded? {
        StreamCorrectedWhole(spine, BufferState(a.cursor, a.chars, 0));
        ReloadedCorrected(spine, st);
      }
    }
  }

  lemma ReloadedCorrected(spine: seq<Chapter>, st: BufferState)
    requires st.index >= |st.chars| && Advance(spine, st.cursor).Loaded?
    requires var a := Advance(spine, st.cursor);
             StreamCorrected(spine, BufferState(a.cursor, a.chars, 0))
             == Drop(a.chars, 0) + Texts(spine, Delivered(spine, a.cursor), 0)
    ensures StreamCorrected(spine, st) == Drop(st.chars, st.index) + Texts(spine, Delivered(spine, st.cursor), 0)
  {
    var a := Advance(spine, st.cursor);
    CorrectedReloads(spine, st);
    var ks := Delivered(spine, st.cursor);
    assert ks == [a.cursor.current] + Delivered(spine, a.cursor);
    assert ks[1..] == Delivered(spine, a.cursor);
    assert ChapterText(spine, a.cursor.current) == a.chars;
  }

  /**
   * Opened on the first chapter with its id remembered and read with the
   * corrected `next`, a well-formed book comes out whole: every chapter's
   * text once, in spine order.
   */
  lemma CorrectedStreamIsWholeBook(spine: seq<Chapter>)
    requires WellFormed(spine) && |spine| > 0
    ensures StreamCorrected(spine, BufferState(Cursor(0, spine[0].id), ChapterText(spine, 0), 0))
            == Texts(spine, Range(0, |spine|), 0)
  {
    StreamCorrectedWhole(spine, BufferState(Cursor(0, spine[0].id), ChapterText(spine, 0), 0));
    DeliveredAfter(spine, 0);
    assert Range(0, |spine|) == [0] + Range(1, |spine|);
  }

  class EpubSourceBuffer {
    const spine: seq<Chapter>
    var cursor: Cursor
    var chars: string
    var index: nat

    function State(): BufferState
      reads this
    {
      BufferState(cursor, chars, index)
    }

    constructor Opened(spine: seq<Chapter>, first: string)
      ensures this.spine == spine && State() == BufferState(Cursor(0, ""), first, 0)
    {
      this.spine := spine;
      cursor := Cursor(0, "");
      chars := first;
      index := 0;
    }

    /** `try_new`: as `EpubSourceReader::try_new`, with an empty previous id. */
    static method TryNew(doc: Result<seq<Chapter>, DocError>) returns (r: Result<EpubSourceBuffer, TryNewError>)
      ensures r.Err? <==> EpubSpine.TryNew(doc).Err?
      ensures r.Err? ==> r.error == EpubSpine.TryNew(doc).error
      ensures r.Ok? ==> && doc.Ok? && fresh(r.value) && r.value.spine == doc.value
                        && r.value.State() == BufferState(Cursor(0, ""), EpubSpine.TryNew(doc).value, 0)
    {
      var first := EpubSpine.TryNew(doc);
      if first.Err? {
        return Err(first.error);
      }
      var buffer := new EpubSourceBuffer.Opened(doc.value, first.value);
      return Ok(buffer);
    }

    /** `next_content`: the guarded step to the next chapter; `ended` for `Err(Ended)`. */
    method NextContent() returns (ended: bool)
      modifies this
      ensures var a := Advance(spine, old(cursor));
              && cursor == a.cursor && ended == a.Ended?
              && (a.Ended? ==> chars == old(chars) && index == old(index))
              && (a.Loaded? ==> chars == a.chars && index == 0)
    {
      var next := GoNext(spine, cursor.current);
      cursor := cursor.(current := next);
      var content := CurrentStr(spine, next);
      if content.None? {
        return true;
      }
      var id := CurrentId(spine, next).value;
      if id == cursor.previousId {
        return true;
      }
      chars := content.value;
      index := 0;
      cursor := cursor.(previousId := id);
      return false;
    }

    /** `next`: the next char of the book, as `NextChar` says, on page 0. */
    method Next() returns (r: Option<SourceChar>)
      modifies this
      ensures var (c, st) := NextChar(spine, old(State()));
              && State() == st
              && (c.None? <==> r.None?)
              && (r.Some? ==> r.value == SourceChar(c.value, 0))
      decreases Measure(spine, cursor)
    {
      index := index + 1;
      if index < |chars| {
        return Some(SourceChar(chars[index], 0));
      }
      var ended := NextContent();
      if ended {
        return None;
      }
      r := Next();
    }
  }
}
