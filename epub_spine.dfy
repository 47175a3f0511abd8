/**
 * The part of an `EpubDoc` the readers use: the chapters of the spine in
 * reading order and a cursor on them. `go_next` moves to the next chapter
 * and stays on the last one. Every EPUB reader moves on with the same
 * guarded step: go to the next chapter, stop when its content cannot be read
 * or when its id is the id of the chapter loaded before.
 */
module EpubSpine {
  import opened Wrappers

  datatype Chapter = Chapter(id: string, content: Option<string>, path: string)

  /** The errors `EpubDoc::new` / `EpubDoc::from_reader` report. */
  datatype DocError = ArchiveError(message: string) | XmlError(message: string) | IOError(message: string) | InvalidEpub

  /** `go_next`: the next chapter, or the same one on the last. */
  function GoNext(spine: seq<Chapter>, current: nat): (next: nat)
    ensures next == current || next == current + 1
    ensures next == current + 1 <==> current + 1 < |spine|
  {
    if current + 1 < |spine| then current + 1 else current
  }

  /** `get_current_str`: the content of the current chapter, if it can be read. */
  function CurrentStr(spine: seq<Chapter>, current: nat): Option<string>
  {
    if current < |spine| then spine[current].content else None
  }

  /** `get_current_id`: the id of the current chapter. */
  function CurrentId(spine: seq<Chapter>, current: nat): Option<string>
  {
    if current < |spine| then Some(spine[current].id) else None
  }

  function IdOrEmpty(id: Option<string>): string
  {
    if id.Some? then id.value else ""
  }

  /** Where the document stands and the id of the chapter last loaded. */
  datatype Cursor = Cursor(current: nat, previousId: string)

  datatype Advanced = Ended(cursor: Cursor) | Loaded(cursor: Cursor, chars: string)

  /** Chapters left, counting twice each one, once more when the current one was not loaded yet. */
  function Measure(spine: seq<Chapter>, c: Cursor): nat
  {
    if c.current < |spine| then
      2 * (|spine| - c.current) + (if spine[c.current].id == c.previousId then 0 else 1)
    else 0
  }

  /**
   * The step every EPUB reader takes when its cached content is used up:
   * `go_next`, then end if the content cannot be read or carries the id of
   * the chapter loaded before, otherwise load it and remember its id.
   */
  function Advance(spine: seq<Chapter>, c: Cursor): (r: Advanced)
    ensures r.cursor.current == GoNext(spine, c.current)
    ensures r.Ended? ==> r.cursor.previousId == c.previousId
    ensures r.Loaded? <==> CurrentStr(spine, GoNext(spine, c.current)).Some?
                           && IdOrEmpty(CurrentId(spine, GoNext(spine, c.current))) != c.previousId
    ensures r.Loaded? ==> && r.cursor.current < |spine|
                          && r.cursor.previousId == spine[r.cursor.current].id
                          && Some(r.chars) == spine[r.cursor.current].content
                          && Measure(spine, r.cursor) < Measure(spine, c)
  {
    var next := GoNext(spine, c.current);
    var content := CurrentStr(spine, next);
    if content.None? then Ended(Cursor(next, c.previousId))
    else
      var id := IdOrEmpty(CurrentId(spine, next));
      if id == c.previousId then Ended(Cursor(next, c.previousId))
      else Loaded(Cursor(next, id), content.value)
  }

  /** The chapters loaded, in order, when a reader keeps reading from `c`. */
  function Delivered(spine: seq<Chapter>, c: Cursor): seq<nat>
    decreases Measure(spine, c)
  {
    match Advance(spine, c)
    case Ended(_) => []
    case Loaded(next, _) => [next.current] + Delivered(spine, next)
  }

  /** Every content can be read, and the ids are non-empty and all different. */
  predicate WellFormed(spine: seq<Chapter>)
  {
    && (forall k :: 0 <= k < |spine| ==> spine[k].content.Some? && spine[k].id != "")
    && (forall j, k :: 0 <= j < k < |spine| ==> spine[j].id != spine[k].id)
  }

  /** `a, a + 1, ..., b - 1`. */
  function Range(a: nat, b: nat): (r: seq<nat>)
    ensures |r| == if a <= b then b - a else 0
    ensures forall k :: 0 <= k < |r| ==> r[k] == a + k
    decreases b - a
  {
    if a >= b then [] else [a] + Range(a + 1, b)
  }

  /** After chapter `k` was loaded, the ones after it follow, each once, then the reading ends. */
  lemma {:induction false} DeliveredAfter(spine: seq<Chapter>, k: nat)
    requires WellFormed(spine) && k < |spine|
    ensures Delivered(spine, Cursor(k, spine[k].id)) == Range(k + 1, |spine|)
    decreases |spine| - k
  {
    if k + 1 < |spine| {
      DeliveredAfter(spine, k + 1);
    }
  }

  /** A cursor as readers leave it: untouched, or on the chapter loaded last. */
  predicate Settled(spine: seq<Chapter>, c: Cursor)
  {
    c == Cursor(0, "") || (c.current < |spine| && c.previousId == spine[c.current].id)
  }

  /**
   * On a well-formed spine, a settled cursor stays settled, and the reading
   * only ends on the last chapter, where it keeps ending.
   */
  lemma AdvanceSettled(spine: seq<Chapter>, c: Cursor)
    requires WellFormed(spine) && Settled(spine, c)
    ensures Settled(spine, Advance(spine, c).cursor)
    ensures Advance(spine, c).Ended? ==> Advance(spine, c).cursor == c && Delivered(spine, c) == []
  {
  }

  /**
   * The chapters a reader has loaded, followed by the ones it will still
   * load, stay the same whatever step it takes.
   */
  lemma AdvanceAccounted(spine: seq<Chapter>, total: seq<nat>, loaded: seq<nat>, c: Cursor)
    requires WellFormed(spine) && Settled(spine, c)
    requires loaded + Delivered(spine, c) == total
    ensures Settled(spine, Advance(spine, c).cursor)
    ensures Advance(spine, c).Ended? ==> loaded + Delivered(spine, Advance(spine, c).cursor) == total
    ensures Advance(spine, c).Loaded? ==>
              (loaded + [Advance(spine, c).cursor.current]) + Delivered(spine, Advance(spine, c).cursor) == total
  {
    AdvanceSettled(spine, c);
    var a := Advance(spine, c);
    if a.Loaded? {
      assert Delivered(spine, c) == [a.cursor.current] + Delivered(spine, a.cursor);
      assert (loaded + [a.cursor.current]) + Delivered(spine, a.cursor) == loaded + Delivered(spine, c);
    }
  }

  // ---- What the readers do with it ----

  /**
   * As written, a reader that calls `go_next` before loading anything
   * (`EpubReader::read`) never loads the first chapter of a spine of two or
   * more.
   */
  lemma FirstChapterSkipped(spine: seq<Chapter>)
    requires WellFormed(spine) && |spine| >= 2
    ensures Delivered(spine, Cursor(0, "")) == Range(1, |spine|)
    ensures 0 !in Delivered(spine, Cursor(0, ""))
  {
    assert GoNext(spine, 0) == 1;
    assert Advance(spine, Cursor(0, "")) == Loaded(Cursor(1, spine[1].id), spine[1].content.value);
    assert Delivered(spine, Cursor(0, "")) == [1] + Delivered(spine, Cursor(1, spine[1].id));
    DeliveredAfter(spine, 1);
  }

  /**
   * As written, a reader that loads the first chapter when it is built but
   * leaves the previous id empty (`EpubSourceReader`, `EpubSourceBuffer`)
   * loads a one-chapter book a second time.
   */
  lemma SingleChapterRepeated(spine: seq<Chapter>)
    requires WellFormed(spine) && |spine| == 1
    ensures [0] + Delivered(spine, Cursor(0, "")) == [0, 0]
  {
    assert Delivered(spine, Cursor(0, spine[0].id)) == [];
  }

  /**
   * The corrected opening: load the current chapter and remember its id,
   * then move on with `Advance`. Every chapter is loaded once, in spine
   * order.
   */
  function OpenedThenDelivered(spine: seq<Chapter>): seq<nat>
  {
    if CurrentStr(spine, 0).None? then [] else [0] + Delivered(spine, Cursor(0, spine[0].id))
  }

  lemma EveryChapterOnce(spine: seq<Chapter>)
    requires WellFormed(spine)
    ensures OpenedThenDelivered(spine) == Range(0, |spine|)
  {
    if |spine| > 0 {
      DeliveredAfter(spine, 0);
    }
  }

  // ---- Opening a document (`try_new`) ----

  /** The errors `try_new` maps the document errors to. */
  datatype TryNewError =
    | ArchiveFailure(message: string)
    | XmlFailure(message: string)
    | IOFailure(message: string)
    | InvalidEpubFailure(message: string)
    | NoContent(message: string)

  /**
   * `try_new` of `EpubSourceReader` and `EpubSourceBuffer`: the document's
   * error mapped one to one, or `NoContent` when the first chapter cannot be
   * read, or the chars of the first chapter.
   */
  function TryNew(doc: Result<seq<Chapter>, DocError>): (r: Result<string, TryNewError>)
    ensures doc.Err? ==> r.Err? && !r.error.NoContent?
    ensures doc.Err? && doc.error.InvalidEpub? ==> r == Err(InvalidEpubFailure("Unknown error"))
    ensures doc.Ok? ==> (r.Err? <==> CurrentStr(doc.value, 0).None?)
    ensures doc.Ok? && r.Err? ==> r.error == NoContent("No content was found in the EPUB")
    ensures r.Ok? ==> doc.Ok? && Some(r.value) == doc.value[0].content
  {
    match doc
    case Err(e) =>
      Err(match e
          case ArchiveError(m) => ArchiveFailure(m)
          case XmlError(m) => XmlFailure(m)
          case IOError(m) => IOFailure(m)
          case InvalidEpub => InvalidEpubFailure("Unknown error"))
    case Ok(spine) =>
      var first := CurrentStr(spine, 0);
      if first.None? then Err(NoContent("No content was found in the EPUB")) else Ok(first.value)
  }
}
