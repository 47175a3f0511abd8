/**
 * The chars of a string that a predicate keeps, in order: the reference
 * view used to say that a chunker loses nothing but the chars it is meant
 * to drop.
 */
module TextFilter {
  function Filter(s: string, keep: char -> bool): (r: string)
    ensures |r| <= |s|
  {
    if s == [] then []
    else Filter(s[..|s| - 1], keep) + (if keep(s[|s| - 1]) then [s[|s| - 1]] else [])
  }

  lemma FilterPush(s: string, c: char, keep: char -> bool)
    ensures Filter(s + [c], keep) == Filter(s, keep) + (if keep(c) then [c] else [])
  {
    assert (s + [c])[..|s|] == s;
  }

  lemma {:induction false} FilterAppend(a: string, b: string, keep: char -> bool)
    ensures Filter(a + b, keep) == Filter(a, keep) + Filter(b, keep)
    decreases |b|
  {
    if b == [] {
      assert a + b == a;
    } else {
      var b' := b[..|b| - 1];
      assert a + b == (a + b') + [b[|b| - 1]];
      FilterAppend(a, b', keep);
      FilterPush(a + b', b[|b| - 1], keep);
      FilterPush(b', b[|b| - 1], keep);
      assert b == b' + [b[|b| - 1]];
    }
  }

  lemma FilterSingle(c: char, keep: char -> bool)
    ensures Filter([c], keep) == if keep(c) then [c] else []
  {
    FilterPush([], c, keep);
    assert [] + [c] == [c];
  }

  /** The strings of `chunks`, one after the other. */
  function Concat(chunks: seq<string>): string
  {
    if chunks == [] then [] else Concat(chunks[..|chunks| - 1]) + chunks[|chunks| - 1]
  }

  lemma ConcatAppend(chunks: seq<string>, x: string)
    ensures Concat(chunks + [x]) == Concat(chunks) + x
  {
    assert (chunks + [x])[..|chunks|] == chunks;
  }
}
