/**
 * `EpubReader`: a byte reader over the chapters of an EPUB, in spine order,
 * that records in its metadata which chapter the bytes come from.
 */
module EpubReading {
  import opened Wrappers
  import opened Json
  import opened Utf8
  import opened CharBuffer
  import opened EpubSpine

  const META_KEY := "epub"
  const META_KEY_DEFAULT_INITIAL := "initial"

  /** The metadata after chapter `k` was loaded: its path, number, the chapter count and its id. */
  function ChapterMeta(meta: Json, spine: seq<Chapter>, k: nat): (r: Json)
    requires k < |spine|
    ensures r.Obj?
    ensures r.fields.Keys >= {"chapter_path", "chapter_number", "chapters_size", "chapter_id"}
    ensures r.fields["chapter_path"] == Str(spine[k].path)
    ensures r.fields["chapter_number"] == Num(k)
    ensures r.fields["chapters_size"] == Num(|spine|)
    ensures r.fields["chapter_id"] == Str(spine[k].id)
    ensures meta.Obj? ==> forall key :: key in meta.fields && key !in {"chapter_path", "chapter_number", "chapters_size", "chapter_id"} ==>
                            key in r.fields && r.fields[key] == meta.fields[key]
    ensures !meta.Obj? ==> r.fields.Keys == {"chapter_path", "chapter_number", "chapters_size", "chapter_id"}
  {
    var m1 := Insert(meta, "chapter_path", Str(spine[k].path));
    var m2 := Insert(m1, "chapter_number", Num(k));
    var m3 := Insert(m2, "chapters_size", Num(|spine|));
    Insert(m3, "chapter_id", Str(spine[k].id))
  }

  class EpubReader {
    const spine: seq<Chapter>
    var cursor: Cursor
    var chars: seq<char>
    var index: nat
    var meta: Json
    /** The chapters loaded so far, in order. */
    ghost var loaded: seq<nat>

    ghost predicate Valid()
      reads this
    {
      && index <= |chars|
      && (WellFormed(spine) ==> Settled(spine, cursor)
                                && loaded + Delivered(spine, cursor) == Delivered(spine, Cursor(0, "")))
    }

    /** `from_reader` once the document was opened: nothing loaded, the metadata normalised. */
    constructor (spine: seq<Chapter>, initialMeta: Option<Json>)
      ensures Valid() && this.spine == spine && loaded == []
      ensures cursor == Cursor(0, "") && chars == [] && index == 0
      ensures meta == NormalizeInitial(initialMeta, META_KEY_DEFAULT_INITIAL)
    {
      this.spine := spine;
      cursor := Cursor(0, "");
      chars := [];
      index := 0;
      meta := NormalizeInitial(initialMeta, META_KEY_DEFAULT_INITIAL);
      loaded := [];
    }

    /** `from_reader`: the document's error, or a new reader on it. */
    static method FromReader(doc: Result<seq<Chapter>, DocError>, initialMeta: Option<Json>)
      returns (r: Result<EpubReader, DocError>)
      ensures doc.Err? ==> r.Err? && r.error == doc.error
      ensures doc.Ok? ==> && r.Ok? && fresh(r.value) && r.value.Valid()
                          && r.value.spine == doc.value && r.value.cursor == Cursor(0, "")
                          && r.value.chars == [] && r.value.loaded == []
                          && r.value.meta == NormalizeInitial(initialMeta, META_KEY_DEFAULT_INITIAL)
    {
      if doc.Err? {
        return Err(doc.error);
      }
      var reader := new EpubReader(doc.value, initialMeta);
      return Ok(reader);
    }

    /**
     * `read`: when the cached chars are used up, takes the guarded step to
     * the next chapter (returning 0 when it ends the reading) and records
     * the chapter in the metadata; then copies whole chars into `buf`.
     */
    method Read(buf: array<byte>) returns (n: nat)
      requires Valid()
      modifies this, buf
      ensures Valid()
      ensures n <= buf.Length && (index < |chars| ==> n + Utf8Len(chars[index]) > buf.Length)
      ensures old(index) < |old(chars)| ==>
                && cursor == old(cursor) && chars == old(chars) && meta == old(meta) && loaded == old(loaded)
                && old(index) <= index && buf[..n] == EncodeAll(chars[old(index)..index])
                && buf[n..] == old(buf[n..])
      ensures old(index) >= |old(chars)| ==>
                var a := Advance(spine, old(cursor));
                && cursor == a.cursor
                && (a.Ended? ==> && n == 0 && chars == old(chars) && index == old(index)
                                 && meta == old(meta) && loaded == old(loaded) && buf[..] == old(buf[..]))
                && (a.Loaded? ==> && chars == a.chars && loaded == old(loaded) + [cursor.current]
                                  && meta == ChapterMeta(old(meta), spine, cursor.current)
                                  && buf[..n] == EncodeAll(chars[..index]) && buf[n..] == old(buf[n..]))
      ensures buf.Length >= 4 && old(index) < |old(chars)| ==> old(index) < index
    {
      if index >= |chars| {
        var ended := LoadNextChapter();
        if ended {
          return 0;
        }
      }
      var start := index;
      n, index := Fill(chars, index, buf);
      if buf.Length >= 4 && start < |chars| {
        FourBytesFitAnyChar(chars, start, index, n, buf.Length);
      }
    }

    /** The guarded step of `read` to the next chapter; `ended` when it returns 0. */
    method LoadNextChapter() returns (ended: bool)
      requires Valid()
      modifies this
      ensures Valid()
      ensures var a := Advance(spine, old(cursor));
              && cursor == a.cursor && ended == a.Ended?
              && (a.Ended? ==> chars == old(chars) && index == old(index) && meta == old(meta) && loaded == old(loaded))
              && (a.Loaded? ==> && chars == a.chars && index == 0 && loaded == old(loaded) + [cursor.current]
                                && meta == ChapterMeta(old(meta), spine, cursor.current))
    {
      ghost var a := Advance(spine, cursor);
      if WellFormed(spine) {
        AdvanceAccounted(spine, Delivered(spine, Cursor(0, "")), loaded, cursor);
      }
      var next := GoNext(spine, cursor.current);
      var content := CurrentStr(spine, next);
      if content.None? {
        cursor := cursor.(current := next);
        return true;
      }
      var id := IdOrEmpty(CurrentId(spine, next));
      if id == cursor.previousId {
        cursor := cursor.(current := next);
        return true;
      }
      assert a == Loaded(Cursor(next, id), content.value);
      meta := ChapterMeta(meta, spine, next);
      cursor := Cursor(next, id);
      loaded := loaded + [next];
      chars := content.value;
      index := 0;
      return false;
    }

    /** `current_read_meta`: the metadata under the `"epub"` key. */
    function CurrentReadMeta(): (r: Json)
      reads this
      ensures r.Obj? && r.fields.Keys == {META_KEY} && r.fields[META_KEY] == meta
    {
      Singleton(META_KEY, meta)
    }
  }
}
