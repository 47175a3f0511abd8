/**
 * `split_sentences`: the captures of the regex
 * `\s*(?P<sentence>[^.!?]*(?:[.!?]|$))`, found one after the other from the
 * start of the content, keeping those longer than one byte.
 *
 * The regex is written out as a scanner. From a position inside the content
 * a match always exists and starts right there: `\s*` takes every whitespace
 * char (greedy, tried first), `[^.!?]*` takes everything up to the next
 * terminator, and the group ends after that terminator, or at the end of the
 * content (`$`) when there is none.
 */
module SentenceSplitter {
  import opened Utf8

  predicate IsTerminator(c: char) { c == '.' || c == '!' || c == '?' }

  /** `\s`: the chars with the Unicode White_Space property. */
  predicate IsSpace(c: char)
  {
    var v := c as int;
    (0x09 <= v <= 0x0D) || v == 0x20 || v == 0x85 || v == 0xA0 || v == 0x1680
    || (0x2000 <= v <= 0x200A) || v == 0x2028 || v == 0x2029 || v == 0x202F
    || v == 0x205F || v == 0x3000
  }

  /** How many whitespace chars `\s*` takes at the start of `s`. */
  function LeadingSpace(s: string): (n: nat)
    ensures n <= |s|
  {
    if s == [] || !IsSpace(s[0]) then 0 else 1 + LeadingSpace(s[1..])
  }

  /** `\s*` takes whitespace only, and all of it: it stops at the end or at a non-whitespace char. */
  lemma {:induction false} LeadingSpaceSpec(s: string)
    ensures forall k :: 0 <= k < LeadingSpace(s) ==> IsSpace(s[k])
    ensures LeadingSpace(s) == |s| || !IsSpace(s[LeadingSpace(s)])
  {
    if s != [] && IsSpace(s[0]) {
      LeadingSpaceSpec(s[1..]);
    }
  }

  /** How many chars `[^.!?]*` takes at the start of `s`: up to the first terminator, or all of them. */
  function UntilTerminator(s: string): (n: nat)
    ensures n <= |s|
  {
    if s == [] || IsTerminator(s[0]) then 0 else 1 + UntilTerminator(s[1..])
  }

  /** `[^.!?]*` takes no terminator and stops at the first one, or at the end. */
  lemma {:induction false} UntilTerminatorSpec(s: string)
    ensures forall k :: 0 <= k < UntilTerminator(s) ==> !IsTerminator(s[k])
    ensures UntilTerminator(s) == |s| || IsTerminator(s[UntilTerminator(s)])
  {
    if s != [] && !IsTerminator(s[0]) {
      UntilTerminatorSpec(s[1..]);
    }
  }

  /** The length of the `sentence` group at the start of `s` (after the whitespace): its terminator included. */
  function GroupLength(s: string): (n: nat)
    ensures n <= |s|
  {
    var t := UntilTerminator(s);
    if t < |s| then t + 1 else t
  }

  /** One match: the whitespace `\s*` skipped and the `sentence` group. */
  datatype Piece = Piece(space: string, sentence: string)

  /**
   * The first match in `s` (not empty): the whitespace and the group, and
   * what is left after them.
   */
  function FirstMatch(s: string): (r: (Piece, string))
    requires s != []
    ensures |r.1| < |s|
  {
    var q := LeadingSpace(s);
    var e := GroupLength(s[q..]);
    (Piece(s[..q], s[q..][..e]), s[q..][e..])
  }

  /**
   * The successive matches of the regex in `s`, as `captures_iter` finds
   * them: each starts where the previous one ended. The empty match the
   * regex also has at the very end is left out; the length filter drops it
   * anyway.
   */
  function Scan(s: string): (r: seq<Piece>)
    decreases |s|
  {
    if s == [] then [] else [FirstMatch(s).0] + Scan(FirstMatch(s).1)
  }

  /** More than one UTF-8 byte: two chars or more, or one char outside ASCII. */
  predicate LongerThanOneByte(x: string)
  {
    |x| > 1 || (|x| == 1 && Utf8Len(x[0]) > 1)
  }

  /** The test above is `str::len() > 1`. */
  lemma LongerThanOneByteIsLen(x: string)
    ensures LongerThanOneByte(x) <==> EncodedLen(x) > 1
  {
    if |x| > 1 {
      assert EncodedLen(x) >= |x|;
    } else if |x| == 1 {
      assert x[..0] == [];
    }
  }

  /** `.filter(|sentence| sentence.len() > 1)`: the groups longer than one UTF-8 byte, in order. */
  function Keep(pieces: seq<Piece>): (r: seq<string>)
    ensures |r| <= |pieces|
    ensures forall i :: 0 <= i < |r| ==> LongerThanOneByte(r[i])
  {
    if pieces == [] then []
    else
      var rest := Keep(pieces[1..]);
      if LongerThanOneByte(pieces[0].sentence) then [pieces[0].sentence] + rest else rest
  }

  function SplitSentences(content: string): (r: seq<string>)
    ensures forall i :: 0 <= i < |r| ==> LongerThanOneByte(r[i])
  {
    Keep(Scan(content))
  }

  /** The matches laid end to end, whitespace and group each time. */
  function Join(pieces: seq<Piece>): string
  {
    if pieces == [] then [] else pieces[0].space + pieces[0].sentence + Join(pieces[1..])
  }

  lemma SplitAt(s: string, n: nat)
    requires n <= |s|
    ensures s == s[..n] + s[n..]
  {
  }

  /** The first match and what follows it make up `s`. */
  lemma FirstMatchCovers(s: string)
    requires s != []
    ensures FirstMatch(s).0.space + FirstMatch(s).0.sentence + FirstMatch(s).1 == s
  {
    var q := LeadingSpace(s);
    var e := GroupLength(s[q..]);
    SplitAt(s[q..], e);
    SplitAt(s, q);
    assert s[..q] + s[q..][..e] + s[q..][e..] == s[..q] + (s[q..][..e] + s[q..][e..]);
  }

  /**
   * The matches cover the content without gap or overlap, in order:
   * splitting drops nothing but the whitespace before each sentence.
   */
  lemma {:induction false} ScanCovers(s: string)
    ensures Join(Scan(s)) == s
    decreases |s|
  {
    if s != [] {
      var (x, tail) := FirstMatch(s);
      ScanCovers(tail);
      FirstMatchCovers(s);
      assert Scan(s) == [x] + Scan(tail);
      assert ([x] + Scan(tail))[1..] == Scan(tail);
    }
  }

  /** The shape the regex gives one match. */
  predicate WellShaped(x: Piece)
  {
    && (forall k :: 0 <= k < |x.space| ==> IsSpace(x.space[k]))
    && (x.sentence != [] ==> !IsSpace(x.sentence[0]))
    && (forall k :: 0 <= k < |x.sentence| - 1 ==> !IsTerminator(x.sentence[k]))
  }

  /** A group closed by its terminator. */
  predicate Closed(x: Piece)
  {
    x.sentence != [] && IsTerminator(x.sentence[|x.sentence| - 1])
  }

  /**
   * The first match is well shaped, and when something is left after it,
   * its group ends with a terminator.
   */
  lemma FirstMatchShape(s: string)
    requires s != []
    ensures WellShaped(FirstMatch(s).0)
    ensures FirstMatch(s).1 != [] ==> Closed(FirstMatch(s).0)
  {
    var q := LeadingSpace(s);
    var r := s[q..];
    var t := UntilTerminator(r);
    var e := GroupLength(r);
    var x := Piece(s[..q], r[..e]);
    LeadingSpaceSpec(s);
    UntilTerminatorSpec(r);
    assert WellShaped(x) by {
      assert forall k :: 0 <= k < |x.sentence| - 1 ==> x.sentence[k] == r[k];
    }
    if r[e..] != [] {
      assert x.sentence[|x.sentence| - 1] == r[t];
    }
  }

  /**
   * Every match is well shaped: whitespace first, then a group that does not
   * start with whitespace and holds no terminator but possibly its last char;
   * every group but the last ends with its terminator (so it is not empty).
   */
  lemma {:induction false} ScanShape(s: string)
    ensures forall i :: 0 <= i < |Scan(s)| ==> WellShaped(Scan(s)[i])
    ensures forall i :: 0 <= i < |Scan(s)| - 1 ==> Closed(Scan(s)[i])
    decreases |s|
  {
    if s != [] {
      var x, tail := FirstMatch(s).0, FirstMatch(s).1;
      FirstMatchShape(s);
      ScanShape(tail);
      var r, rt := Scan(s), Scan(tail);
      assert r == [x] + rt;
      forall i | 0 < i < |r|
        ensures r[i] == rt[i - 1]
      {
      }
    }
  }

  /** Where each kept group was matched. */
  function KeptAt(pieces: seq<Piece>): (idx: seq<nat>)
  {
    if pieces == [] then []
    else
      var rest := KeptAt(pieces[1..]);
      var shifted := seq(|rest|, i requires 0 <= i < |rest| => rest[i] + 1);
      if LongerThanOneByte(pieces[0].sentence) then [0] + shifted else shifted
  }

  /**
   * The kept groups were matched at increasing positions, so the sentences
   * come out in the order they appear.
   */
  lemma {:induction false} KeptAtOrdered(pieces: seq<Piece>)
    ensures var idx := KeptAt(pieces);
            && |idx| == |Keep(pieces)|
            && (forall i :: 0 <= i < |idx| ==> idx[i] < |pieces| && Keep(pieces)[i] == pieces[idx[i]].sentence)
            && (forall i, j :: 0 <= i < j < |idx| ==> idx[i] < idx[j])
  {
    if pieces != [] {
      KeptAtOrdered(pieces[1..]);
      var rest, keep := KeptAt(pieces[1..]), Keep(pieces[1..]);
      var shifted := seq(|rest|, i requires 0 <= i < |rest| => rest[i] + 1);
      forall i | 0 <= i < |shifted|
        ensures shifted[i] < |pieces| && keep[i] == pieces[shifted[i]].sentence
      {
        assert pieces[shifted[i]] == pieces[1..][rest[i]];
      }
      if LongerThanOneByte(pieces[0].sentence) {
        var idx := [0] + shifted;
        assert KeptAt(pieces) == idx;
        assert Keep(pieces) == [pieces[0].sentence] + keep;
        forall i | 0 < i < |idx|
          ensures idx[i] == shifted[i - 1] && Keep(pieces)[i] == keep[i - 1]
        {
        }
      } else {
        assert KeptAt(pieces) == shifted;
        assert Keep(pieces) == keep;
      }
    }
  }

  /** A group is dropped exactly when it is one byte or less: every longer one is kept. */
  lemma {:induction false} KeepKeepsLong(pieces: seq<Piece>, i: nat)
    requires i < |pieces| && LongerThanOneByte(pieces[i].sentence)
    ensures pieces[i].sentence in Keep(pieces)
  {
    if i > 0 {
      KeepKeepsLong(pieces[1..], i - 1);
    }
  }

  /** `LeadingSpace` is the first non-whitespace position. */
  lemma LeadingSpaceIs(s: string, n: nat)
    requires n <= |s|
    requires forall k :: 0 <= k < n ==> IsSpace(s[k])
    requires n == |s| || !IsSpace(s[n])
    ensures LeadingSpace(s) == n
  {
    LeadingSpaceSpec(s);
    var r := LeadingSpace(s);
  }

  /** `UntilTerminator` is the first terminator position. */
  lemma UntilTerminatorIs(s: string, n: nat)
    requires n <= |s|
    requires forall k :: 0 <= k < n ==> !IsTerminator(s[k])
    requires n == |s| || IsTerminator(s[n])
    ensures UntilTerminator(s) == n
  {
    UntilTerminatorSpec(s);
  }

  /**
   * When `a` ends with a terminator, the first match of `a + b` is that of
   * `a`, and what is left after it is what is left in `a`, then `b`.
   */
  lemma FirstMatchInside(a: string, b: string)
    requires a != [] && IsTerminator(a[|a| - 1])
    ensures FirstMatch(a + b) == (FirstMatch(a).0, FirstMatch(a).1 + b)
  {
    var s := a + b;
    var q := LeadingSpace(a);
    LeadingSpaceSpec(a);
    LeadingSpaceIs(s, q);
    var r := a[q..];
    var t := UntilTerminator(r);
    UntilTerminatorSpec(r);
    UntilTerminatorIs(r + b, t);
    var e := t + 1;
    assert s[q..] == r + b;
    assert s[..q] == a[..q] && (r + b)[..e] == r[..e];
    assert (r + b)[e..] == r[e..] + b;
  }

  /** What is left after the first match ends as `s` does. */
  lemma LeftoverEndsAsBefore(s: string)
    requires s != [] && FirstMatch(s).1 != []
    ensures FirstMatch(s).1[|FirstMatch(s).1| - 1] == s[|s| - 1]
  {
    FirstMatchCovers(s);
    var (x, rest) := FirstMatch(s);
    assert s == (x.space + x.sentence) + rest;
  }

  lemma AppendNil<T>(x: seq<T>)
    ensures x + [] == x
  {
  }

  lemma NilAppend<T>(x: seq<T>)
    ensures [] + x == x
  {
  }

  lemma AppendAssoc<T>(x: seq<T>, y: seq<T>, z: seq<T>)
    ensures x + (y + z) == (x + y) + z
  {
  }

  /**
   * Splitting distributes over a concatenation whose first part ends with a
   * terminator: the matches of `a + b` are those of `a`, then those of `b`.
   */
  lemma {:induction false} ScanAfterTerminator(a: string, b: string)
    requires a != [] && IsTerminator(a[|a| - 1])
    ensures Scan(a + b) == Scan(a) + Scan(b)
    decreases |a|
  {
    var x, rest := FirstMatch(a).0, FirstMatch(a).1;
    assert Scan(a) == [x] + Scan(rest);
    assert Scan(a + b) == [x] + Scan(rest + b) by {
      FirstMatchInside(a, b);
    }
    if rest == [] {
      assert rest + b == b;
      assert Scan(rest) == [];
    } else {
      assert rest[|rest| - 1] == a[|a| - 1] by {
        LeftoverEndsAsBefore(a);
      }
      ScanAfterTerminator(rest, b);
      AppendAssoc([x], Scan(rest), Scan(b));
    }
  }

  /** Every match consumes something. */
  lemma FirstMatchNotEmpty(s: string)
    requires s != []
    ensures FirstMatch(s).0.space + FirstMatch(s).0.sentence != []
  {
    FirstMatchCovers(s);
  }

  /**
   * `pieces` could be what the regex matches: every piece well shaped and
   * not empty, and every group but the last closed by its terminator.
   */
  predicate Decomposes(pieces: seq<Piece>)
  {
    pieces == []
    || (&& WellShaped(pieces[0])
        && pieces[0].space + pieces[0].sentence != []
        && (|pieces| > 1 ==> Closed(pieces[0]))
        && Decomposes(pieces[1..]))
  }

  /** A well-shaped piece that is closed, or that nothing follows, is the first match. */
  lemma FirstMatchOf(x: Piece, rest: string)
    requires WellShaped(x) && x.space + x.sentence != []
    requires rest == [] || Closed(x)
    ensures FirstMatch(x.space + x.sentence + rest) == (x, rest)
  {
    var w, g := x.space, x.sentence;
    var r := g + rest;
    var s := w + r;
    AppendAssoc(w, g, rest);
    assert forall k :: 0 <= k < |w| ==> s[k] == w[k];
    if g != [] {
      assert s[|w|] == g[0];
    }
    LeadingSpaceIs(s, |w|);
    assert s[..|w|] == w && s[|w|..] == r;
    assert forall k :: 0 <= k < |g| ==> r[k] == g[k];
    var t := if Closed(x) then |g| - 1 else |g|;
    UntilTerminatorIs(r, t);
    assert GroupLength(r) == |g|;
    assert r[..|g|] == g && r[|g|..] == rest;
  }

  /**
   * The scan is the only decomposition of the content: any sequence of
   * pieces the regex could match that joins into `Join(pieces)` is what the
   * scan returns for it.
   */
  lemma {:induction false} ScanUnique(pieces: seq<Piece>)
    requires Decomposes(pieces)
    ensures Scan(Join(pieces)) == pieces
  {
    if pieces != [] {
      ScanStep(pieces);
      ScanUnique(pieces[1..]);
      assert [pieces[0]] + pieces[1..] == pieces;
    }
  }

  /** The first piece of a decomposition is the scanner's first match. */
  lemma ScanStep(pieces: seq<Piece>)
    requires Decomposes(pieces) && pieces != []
    ensures Scan(Join(pieces)) == [pieces[0]] + Scan(Join(pieces[1..]))
  {
    var x, rest := pieces[0], Join(pieces[1..]);
    assert Join(pieces) == x.space + x.sentence + rest;
    assert |pieces| == 1 ==> rest == [];
    FirstMatchOf(x, rest);
  }

  /** Conversely, what the scan returns is such a decomposition. */
  lemma {:induction false} ScanDecomposes(s: string)
    ensures Decomposes(Scan(s))
    decreases |s|
  {
    if s != [] {
      var x, tail := FirstMatch(s).0, FirstMatch(s).1;
      FirstMatchShape(s);
      FirstMatchNotEmpty(s);
      ScanDecomposes(tail);
      var r := Scan(s);
      assert r == [x] + Scan(tail);
      assert r[0] == x && r[1..] == Scan(tail);
      assert |r| > 1 ==> tail != [];
    }
  }

  /** `y` holds none of `.`, `!` and `?`. */
  predicate Unterminated(y: string) { '.' !in y && '!' !in y && '?' !in y }

  /** Whitespace, then a group with a terminator only at its end, checked char by char. */
  lemma Shaped(w: string, x: string)
    requires forall k :: 0 <= k < |w| ==> IsSpace(w[k])
    requires x != [] && !IsSpace(x[0]) && Unterminated(x[..|x| - 1])
    ensures WellShaped(Piece(w, x)) && Piece(w, x).space + Piece(w, x).sentence != []
  {
    assert forall k :: 0 <= k < |x| - 1 ==> x[k] == x[..|x| - 1][k];
  }

  lemma Cons<T>(x: T, rest: seq<T>)
    ensures ([x] + rest)[0] == x && ([x] + rest)[1..] == rest
  {
  }

  /** Taking one more piece in front: what `Decomposes`, `Join` and `Keep` give. */
  lemma PieceCons(x: Piece, rest: seq<Piece>)
    requires WellShaped(x) && x.space + x.sentence != []
    requires rest != [] ==> Closed(x)
    requires Decomposes(rest)
    ensures Decomposes([x] + rest)
    ensures Join([x] + rest) == x.space + x.sentence + Join(rest)
    ensures Keep([x] + rest) == (if LongerThanOneByte(x.sentence) then [x.sentence] else []) + Keep(rest)
  {
    Cons(x, rest);
  }

  /** "Hello world, it's the end": one sentence, returned whole. */
  lemma OneSentence()
    ensures SplitSentences("Hello world, it's the end") == ["Hello world, it's the end"]
  {
    var x := Piece("", "Hello world, it's the end");
    Shaped(x.space, x.sentence);
    Cons(x, []);
    assert Decomposes([x]);
    ScanUnique([x]);
    assert Join([x]) == "" + "Hello world, it's the end" + [];
    NilAppend(x.sentence);
    AppendNil(x.sentence);
  }

  // "Hello world. My name is Alex! Is this a test ?The end", built from its last piece forwards.

  lemma EndPiece() returns (p: seq<Piece>)
    ensures Decomposes(p) && p != []
    ensures Join(p) == "The end"
    ensures Keep(p) == ["The end"]
  {
    var x := Piece("", "The end");
    Shaped(x.space, x.sentence);
    PieceCons(x, []);
    p := [x];
    NilAppend(x.sentence);
    AppendNil(x.sentence);
  }

  lemma TestPieces() returns (p: seq<Piece>)
    ensures Decomposes(p) && p != []
    ensures Join(p) == " " + "Is this a test ?" + "The end"
    ensures Keep(p) == ["Is this a test ?", "The end"]
  {
    var q := EndPiece();
    var x := Piece(" ", "Is this a test ?");
    Shaped(x.space, x.sentence);
    PieceCons(x, q);
    p := [x] + q;
  }

  lemma AlexPieces() returns (p: seq<Piece>)
    ensures Decomposes(p) && p != []
    ensures Join(p) == " " + "My name is Alex!" + (" " + "Is this a test ?" + "The end")
    ensures Keep(p) == ["My name is Alex!", "Is this a test ?", "The end"]
  {
    var q := TestPieces();
    var x := Piece(" ", "My name is Alex!");
    Shaped(x.space, x.sentence);
    PieceCons(x, q);
    p := [x] + q;
  }

  lemma FourPieces() returns (p: seq<Piece>)
    ensures Decomposes(p)
    ensures Join(p) == "Hello world." + (" " + "My name is Alex!") + (" " + "Is this a test ?") + "The end"
    ensures Keep(p) == ["Hello world.", "My name is Alex!", "Is this a test ?", "The end"]
  {
    var q := AlexPieces();
    var x := Piece("", "Hello world.");
    Shaped(x.space, x.sentence);
    PieceCons(x, q);
    p := [x] + q;
    var a, b, c, d := x.sentence, " " + "My name is Alex!", " " + "Is this a test ?", "The end";
    NilAppend(a);
    AppendAssoc(a, b, c + d);
    AppendAssoc(a + b, c, d);
  }

  /** "Hello world. My name is Alex! Is this a test ?The end": four sentences. */
  lemma FourSentences()
    ensures SplitSentences("Hello world." + (" " + "My name is Alex!") + (" " + "Is this a test ?") + "The end")
            == ["Hello world.", "My name is Alex!", "Is this a test ?", "The end"]
  {
    var p := FourPieces();
    ScanUnique(p);
  }

  // "Hello world... Is this a test???The end...", built from its last piece forwards.

  /** Two bare marks in front: two one-byte pieces, both dropped by the length filter. */
  lemma TwoMarks(t: char, q: seq<Piece>) returns (p: seq<Piece>)
    requires IsTerminator(t) && Decomposes(q)
    ensures Decomposes(p) && p != []
    ensures Join(p) == [t, t] + Join(q)
    ensures Keep(p) == Keep(q)
  {
    var x := Piece("", [t]);
    Shaped(x.space, x.sentence);
    PieceCons(x, q);
    PieceCons(x, [x] + q);
    p := [x] + ([x] + q);
    NilAppend(x.sentence);
    NilAppend(Keep(q));
    AppendAssoc([t], [t], Join(q));
  }

  lemma EndDots() returns (p: seq<Piece>)
    ensures Decomposes(p) && p != []
    ensures Join(p) == "The end." + ".."
    ensures Keep(p) == ["The end."]
  {
    var q := TwoMarks('.', []);
    var x := Piece("", "The end.");
    Shaped(x.space, x.sentence);
    PieceCons(x, q);
    p := [x] + q;
    NilAppend(x.sentence);
    AppendNil(['.', '.']);
  }

  lemma TestMarks() returns (p: seq<Piece>)
    ensures Decomposes(p) && p != []
    ensures Join(p) == " " + "Is this a test?" + ("??" + ("The end." + ".."))
    ensures Keep(p) == ["Is this a test?", "The end."]
  {
    var q := EndDots();
    var r := TwoMarks('?', q);
    var x := Piece(" ", "Is this a test?");
    Shaped(x.space, x.sentence);
    PieceCons(x, r);
    p := [x] + r;
  }

  lemma HelloDots() returns (p: seq<Piece>)
    ensures Decomposes(p)
    ensures Join(p) == "Hello world." + ".." + (" " + "Is this a test?") + "??" + ("The end." + "..")
    ensures Keep(p) == ["Hello world.", "Is this a test?", "The end."]
  {
    var q := TestMarks();
    var r := TwoMarks('.', q);
    var x := Piece("", "Hello world.");
    Shaped(x.space, x.sentence);
    PieceCons(x, r);
    p := [x] + r;
    var a, b, c, d, e := x.sentence, "..", " " + "Is this a test?", "??", "The end." + "..";
    NilAppend(a);
    AppendAssoc(a, b, c + (d + e));
    AppendAssoc(a + b, c, d + e);
    AppendAssoc(a + b + c, d, e);
  }

  /** "Hello world... Is this a test???The end...": the repeated marks are filtered out. */
  lemma RepeatedTerminators()
    ensures SplitSentences("Hello world." + ".." + (" " + "Is this a test?") + "??" + ("The end." + ".."))
            == ["Hello world.", "Is this a test?", "The end."]
  {
    var p := HelloDots();
    ScanUnique(p);
  }
}
