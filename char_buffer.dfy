/**
 * The buffer-fill loop shared by every reader's `Read::read`: it copies the
 * UTF-8 encodings of the cached chars into the caller's byte buffer, one
 * whole char at a time, and stops before a char that would not fit.
 */
module CharBuffer {
  import opened Utf8

  /** How the text of a source runs out: at its end, at an empty piece, or on an error. */
  datatype Ending = Finished | Stopped | Failed(message: string)

  /** `std::io::Error` of kind `InvalidData`, the only error the readers return. */
  datatype ReadError = InvalidData(message: string)

  /**
   * Copies whole encodings of `chars[start..]` into `buf` from index 0.
   * `n` is the number of bytes written and `next` the index of the first
   * char not copied.
   */
  method Fill(chars: seq<char>, start: nat, buf: array<byte>) returns (n: nat, next: nat)
    requires start <= |chars|
    modifies buf
    ensures start <= next <= |chars| && n <= buf.Length
    ensures buf[..n] == EncodeAll(chars[start..next])
    ensures buf[n..] == old(buf[n..])
    ensures next < |chars| ==> n + Utf8Len(chars[next]) > buf.Length
  {
    n, next := 0, start;
    while n < buf.Length && next < |chars|
      invariant start <= next <= |chars| && n <= buf.Length
      invariant buf[..n] == EncodeAll(chars[start..next])
      invariant buf[n..] == old(buf[n..])
      decreases |chars| - next
    {
      var bytes := Encode(chars[next]);
      if n + |bytes| > buf.Length {
        break;
      }
      CopyAt(buf, n, bytes);
      EncodeStep(chars, start, next);
      n := n + |bytes|;
      next := next + 1;
    }
  }

  /** Writes `bytes` into `buf` from index `n`, leaving the rest of `buf` alone. */
  method CopyAt(buf: array<byte>, n: nat, bytes: seq<byte>)
    requires n + |bytes| <= buf.Length
    modifies buf
    ensures buf[..n + |bytes|] == old(buf[..n]) + bytes
    ensures buf[n + |bytes|..] == old(buf[n + |bytes|..])
  {
    var k := 0;
    while k < |bytes|
      invariant 0 <= k <= |bytes|
      invariant buf[..n + k] == old(buf[..n]) + bytes[..k]
      invariant buf[n + k..] == old(buf[n + k..])
    {
      buf[n + k] := bytes[k];
      k := k + 1;
    }
    assert bytes[..k] == bytes;
  }

  /** One more char: its encoding is appended. */
  lemma EncodeStep(chars: seq<char>, start: nat, next: nat)
    requires start <= next < |chars|
    ensures EncodeAll(chars[start..next + 1]) == EncodeAll(chars[start..next]) + Encode(chars[next])
  {
    EncodeAllAppend(chars[start..next], [chars[next]]);
    assert chars[start..next + 1] == chars[start..next] + [chars[next]];
    assert EncodeAll([chars[next]]) == Encode(chars[next]) + EncodeAll([]);
  }

  /** A buffer of four bytes or more always takes the next char, when there is one. */
  lemma FourBytesFitAnyChar(chars: seq<char>, start: nat, next: nat, n: nat, len: nat)
    requires start <= next <= |chars| && n == |EncodeAll(chars[start..next])|
    requires next < |chars| ==> n + Utf8Len(chars[next]) > len
    requires len >= 4 && start < |chars|
    ensures start < next
  {
  }

  /** A buffer as large as the encoding of what is left takes all of it. */
  lemma WholeRestFits(chars: seq<char>, start: nat, next: nat, n: nat, len: nat)
    requires start <= next <= |chars| && n == |EncodeAll(chars[start..next])|
    requires next < |chars| ==> n + Utf8Len(chars[next]) > len
    requires len >= |EncodeAll(chars[start..])|
    ensures next == |chars|
  {
    if next < |chars| {
      assert chars[start..] == chars[start..next] + chars[next..];
      EncodeAllAppend(chars[start..next], chars[next..]);
    }
  }

  /** A piece cached from the text left keeps the text handed out plus the text left unchanged. */
  lemma Continued(read: string, left: string, piece: string, rest: string, total: string)
    requires read + left == total && left == piece + rest
    ensures read + piece[0..] + rest == total
  {
    assert piece[0..] == piece;
  }

  /** Handing out `chars[start..next]` moves them from the cache to what was read. */
  lemma Consumed(read: string, chars: string, start: nat, next: nat, rest: string)
    requires start <= next <= |chars|
    ensures read + chars[start..] + rest == (read + chars[start..next]) + chars[next..] + rest
    ensures (read + chars[start..next])[|read|..] == chars[start..next]
  {
    assert chars[start..] == chars[start..next] + chars[next..];
  }
}
