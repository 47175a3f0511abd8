/**
 * What `std::path::Path` makes of an uploaded file's name on Unix:
 * `file_name()` is the last normal component, and `extension()` the part
 * after its last '.', unless that '.' is the first char of the name.
 */
module UploadPath {
  import opened Wrappers

  /** The text after the last '/' (all of `p` when there is none). */
  function LastSegment(p: string): (c: string)
    ensures |c| <= |p| && c == p[|p| - |c|..]
    ensures '/' !in c
    ensures |c| < |p| ==> p[|p| - |c| - 1] == '/'
  {
    if p == [] then []
    else if p[|p| - 1] == '/' then []
    else LastSegment(p[..|p| - 1]) + [p[|p| - 1]]
  }

  /**
   * `Path::file_name`: trailing '/' and "." components are skipped; a path
   * that ends in "..", or holds no normal component, has no file name.
   */
  function FileName(p: string): (n: Option<string>)
    ensures n.Some? ==> n.value != [] && '/' !in n.value && n.value != "." && n.value != ".."
    decreases |p|
  {
    if p == [] then None
    else if p[|p| - 1] == '/' then FileName(p[..|p| - 1])
    else
      var c := LastSegment(p);
      if c == "." then (if |c| == |p| then None else FileName(p[..|p| - 1]))
      else if c == ".." then None
      else Some(c)
  }

  /** The index of the last '.' in `s`, if any. */
  function LastDot(s: string): (i: Option<nat>)
    ensures i.Some? ==> i.value < |s| && s[i.value] == '.' && '.' !in s[i.value + 1..]
    ensures i.None? ==> '.' !in s
  {
    if s == [] then None
    else if s[|s| - 1] == '.' then Some(|s| - 1)
    else
      var i := LastDot(s[..|s| - 1]);
      assert s == s[..|s| - 1] + [s[|s| - 1]];
      assert i.Some? ==> s[i.value + 1..] == s[..|s| - 1][i.value + 1..] + [s[|s| - 1]];
      i
  }

  /** `Path::extension`: what follows the last '.' of the file name, when something precedes that '.'. */
  function Extension(p: string): (e: Option<string>)
    ensures e.Some? ==> FileName(p).Some? && ExtensionOf(FileName(p).value, e.value)
  {
    match FileName(p)
    case None => None
    case Some(n) =>
      match LastDot(n)
      case None => None
      case Some(i) =>
        if i == 0 then None
        else
          ExtensionAfterLastDot(n, i);
          Some(n[i + 1..])
  }

  lemma ExtensionAfterLastDot(n: string, i: nat)
    requires LastDot(n) == Some(i) && i > 0
    ensures ExtensionOf(n, n[i + 1..])
  {
    var e := n[i + 1..];
    assert |n| - |e| == i + 1;
    assert n[|n| - |e|..] == e;
  }

  /** `e` is what follows the last '.' of `n`, and something precedes that '.'. */
  predicate ExtensionOf(n: string, e: string)
  {
    && |n| > |e| + 1
    && n[|n| - |e|..] == e
    && n[|n| - |e| - 1] == '.'
    && '.' !in e
  }

  lemma {:induction false} LastSegmentWhole(p: string)
    requires '/' !in p
    ensures LastSegment(p) == p
  {
    if p != [] {
      LastSegmentWhole(p[..|p| - 1]);
    }
  }

  /** A plain name, other than "." and "..", is its own file name. */
  lemma FileNameWhole(p: string)
    requires p != [] && '/' !in p && p != "." && p != ".."
    ensures FileName(p) == Some(p)
  {
    LastSegmentWhole(p);
  }

  lemma {:induction false} LastDotAfter(a: string, b: string)
    requires '.' !in b
    ensures LastDot(a + "." + b) == Some(|a|)
    decreases |b|
  {
    var s := a + "." + b;
    if b != [] {
      assert s[..|s| - 1] == a + "." + b[..|b| - 1];
      LastDotAfter(a, b[..|b| - 1]);
    }
  }

  /** The usual upload: "book.epub" has extension "epub". */
  lemma ExtensionOfBook()
    ensures Extension("book" + "." + "epub") == Some("epub")
  {
    var p := "book" + "." + "epub";
    assert Extension(p) == Some(p[5..]) by {
      FileNameWhole(p);
      LastDotAfter("book", "epub");
    }
    assert p[5..] == "epub";
  }

  /** A leading '.' does not start an extension: ".epub" has none. */
  lemma ExtensionOfDotFile()
    ensures Extension("." + "epub") == None
  {
    FileNameWhole("." + "epub");
    LastDotAfter("", "epub");
  }

  /** A name without '.' has no extension. */
  lemma ExtensionOfPlainName()
    ensures Extension("book") == None
  {
    FileNameWhole("book");
  }
}
