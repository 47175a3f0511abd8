/**
 * The word counter shared by the generators of the worker and of the
 * ingestion service: every char gets a `CharState`, and the counter grows by
 * an amount read from a table indexed by the previous and the current state.
 */
module WordCount {
  /**
   * `CharState`. `NoChar` is the state before the first char of a chunk
   * (the source's `CharState::None`).
   */
  datatype CharState = NoChar | Space | Special | Normal

  /** `SPECIAL_CHARS_FOR_COUNTING_WORDS`. */
  predicate IsSpecial(c: char)
  {
    c == ',' || c == '.' || c == ';' || c == ':' || c == '?' || c == '!'
  }

  function StateOf(c: char): (st: CharState)
    ensures st != NoChar
    ensures st == Space <==> c == ' '
    ensures st == Special <==> IsSpecial(c)
  {
    if c == ' ' then Space else if IsSpecial(c) then Special else Normal
  }

  /** The amount the `match` on (previous state, current state) adds to the counter. */
  function Increment(prev: CharState, cur: CharState): nat
  {
    match prev
    case NoChar => if cur == Special then 1 else 0
    case Space => if cur == Special then 1 else 0
    case Special => if cur == Special then 1 else 0
    case Normal => if cur == Space then 1 else if cur == Special then 2 else 0
  }

  /** A space right after nothing or after another space is dropped (the `continue` arms). */
  predicate Skips(prev: CharState, cur: CharState)
  {
    cur == Space && (prev == NoChar || prev == Space)
  }

  /** The state of the last char of `s`, `NoChar` for the empty string. */
  function LastState(s: string): (st: CharState)
    ensures st == NoChar <==> s == []
  {
    if s == [] then NoChar else StateOf(s[|s| - 1])
  }

  /**
   * The number of words of `s`, defined without the table: every special
   * char is one word, and every run of normal chars followed by a space or a
   * special char is one more (a word is counted once it has ended).
   */
  function Words(s: string): nat
  {
    if |s| == 0 then 0
    else
      (if StateOf(s[0]) == Special then 1 else 0)
      + (if |s| > 1 && StateOf(s[0]) == Normal && StateOf(s[1]) != Normal then 1 else 0)
      + Words(s[1..])
  }

  /** The table computes exactly the words a pushed char adds: counter and content agree. */
  lemma {:induction false} WordsAppend(s: string, c: char)
    ensures Words(s + [c]) == Words(s) + Increment(LastState(s), StateOf(c))
  {
    if |s| == 1 {
      assert (s + [c])[1..] == [c];
      assert [c][1..] == [];
    } else if |s| > 1 {
      assert (s + [c])[1..] == s[1..] + [c];
      WordsAppend(s[1..], c);
      assert LastState(s[1..]) == LastState(s);
    }
  }

  /** No counter step adds more than two words. */
  lemma IncrementBound(prev: CharState, cur: CharState)
    ensures Increment(prev, cur) <= 2
    ensures Increment(prev, cur) == 2 <==> prev == Normal && cur == Special
  {
  }

  /** No two spaces in a row. */
  predicate NoDoubleSpace(s: string)
  {
    forall k :: 0 < k < |s| && s[k] == ' ' ==> s[k - 1] != ' '
  }

  /** A chunk built by the counter: no leading space and no two spaces in a row. */
  predicate SingleSpaced(s: string)
  {
    (|s| > 0 ==> s[0] != ' ') && NoDoubleSpace(s)
  }

  lemma NoDoubleSpaceAppend(s: string, c: char)
    requires NoDoubleSpace(s) && !(c == ' ' && LastState(s) == Space)
    ensures NoDoubleSpace(s + [c])
  {
    var t := s + [c];
    forall k | 0 < k < |t| && t[k] == ' '
      ensures t[k - 1] != ' '
    {
      if k < |s| {
        assert t[k] == s[k] && t[k - 1] == s[k - 1];
      }
    }
  }

  /** Appending a char that the counter does not skip keeps the string single-spaced. */
  lemma SingleSpacedAppend(s: string, c: char)
    requires SingleSpaced(s) && !Skips(LastState(s), StateOf(c))
    ensures SingleSpaced(s + [c])
  {
    NoDoubleSpaceAppend(s, c);
  }

  lemma NoDoubleSpacePrefix(s: string, n: nat)
    requires NoDoubleSpace(s) && n <= |s|
    ensures NoDoubleSpace(s[..n])
  {
  }

  lemma SingleSpacedPrefix(s: string, n: nat)
    requires SingleSpaced(s) && n <= |s|
    ensures SingleSpaced(s[..n])
  {
  }
}
