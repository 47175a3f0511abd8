/**
 * UTF-8 as Rust's `char::encode_utf8`, `char::len_utf8` and
 * `std::str::from_utf8` use it: a `char` is a Unicode scalar value and is
 * written as one to four bytes.
 */
module Utf8 {
  import opened Wrappers

  newtype byte = x: int | 0 <= x < 256

  /** `char::len_utf8`. */
  function Utf8Len(c: char): (n: nat)
    ensures 1 <= n <= 4
  {
    var v := c as int;
    if v < 0x80 then 1 else if v < 0x800 then 2 else if v < 0x1_0000 then 3 else 4
  }

  predicate IsContinuation(b: byte) { 0x80 <= b < 0xC0 }

  /** `char::encode_utf8`: the bytes that encode `c`. */
  function Encode(c: char): (bs: seq<byte>)
    ensures |bs| == Utf8Len(c)
    ensures forall k :: 1 <= k < |bs| ==> IsContinuation(bs[k])
  {
    var v := c as int;
    if v < 0x80 then
      [v as byte]
    else if v < 0x800 then
      [(0xC0 + v / 64) as byte, (0x80 + v % 64) as byte]
    else if v < 0x1_0000 then
      [(0xE0 + v / 4096) as byte, (0x80 + (v / 64) % 64) as byte, (0x80 + v % 64) as byte]
    else
      [(0xF0 + v / 262144) as byte, (0x80 + (v / 4096) % 64) as byte,
       (0x80 + (v / 64) % 64) as byte, (0x80 + v % 64) as byte]
  }

  /** The encodings of the chars of `cs`, one after the other. */
  function EncodeAll(cs: seq<char>): (bs: seq<byte>)
    ensures |bs| >= |cs|
  {
    if cs == [] then [] else Encode(cs[0]) + EncodeAll(cs[1..])
  }

  /** The number of bytes `cs` takes in UTF-8, char by char (`str::len`). */
  function EncodedLen(cs: seq<char>): (n: nat)
    ensures n >= |cs|
  {
    if cs == [] then 0 else EncodedLen(cs[..|cs| - 1]) + Utf8Len(cs[|cs| - 1])
  }

  /** The char-by-char count is the length of the encoding. */
  lemma {:induction false} EncodedLenIsLength(cs: seq<char>)
    ensures EncodedLen(cs) == |EncodeAll(cs)|
    decreases |cs|
  {
    if cs != [] {
      var init := cs[..|cs| - 1];
      EncodedLenIsLength(init);
      assert init + [cs[|cs| - 1]] == cs;
      EncodeAllAppend(init, [cs[|cs| - 1]]);
      assert EncodeAll([cs[|cs| - 1]]) == Encode(cs[|cs| - 1]) + EncodeAll([]);
    }
  }

  predicate IsScalar(v: int) { 0 <= v < 0xD800 || 0xE000 <= v < 0x11_0000 }

  /**
   * Decodes the scalar value that `bs` starts with, and how many bytes it
   * takes, the way `std::str::from_utf8` accepts it: no overlong form, no
   * surrogate, nothing above U+10FFFF.
   */
  function DecodeFirst(bs: seq<byte>): (r: Option<(char, nat)>)
    ensures r.Some? ==> 1 <= r.value.1 <= |bs| && r.value.1 == Utf8Len(r.value.0)
  {
    if |bs| == 0 then None
    else
      var b0 := bs[0] as int;
      if b0 < 0x80 then Some((b0 as char, 1))
      else if b0 < 0xC0 then None
      else if b0 < 0xE0 then
        if |bs| < 2 || !IsContinuation(bs[1]) then None
        else
          var v := (b0 - 0xC0) * 64 + (bs[1] as int - 0x80);
          if v < 0x80 then None else Some((v as char, 2))
      else if b0 < 0xF0 then
        if |bs| < 3 || !IsContinuation(bs[1]) || !IsContinuation(bs[2]) then None
        else
          var v := (b0 - 0xE0) * 4096 + (bs[1] as int - 0x80) * 64 + (bs[2] as int - 0x80);
          if v < 0x800 || !IsScalar(v) then None else Some((v as char, 3))
      else if b0 < 0xF8 then
        if |bs| < 4 || !IsContinuation(bs[1]) || !IsContinuation(bs[2]) || !IsContinuation(bs[3]) then None
        else
          var v := (b0 - 0xF0) * 262144 + (bs[1] as int - 0x80) * 4096
                   + (bs[2] as int - 0x80) * 64 + (bs[3] as int - 0x80);
          if v < 0x1_0000 || !IsScalar(v) then None else Some((v as char, 4))
      else None
  }

  /** `std::str::from_utf8`: the chars `bs` encodes, or `None` if it is not valid UTF-8. */
  function DecodeAll(bs: seq<byte>): (r: Option<seq<char>>)
    decreases |bs|
  {
    if bs == [] then Some([])
    else match DecodeFirst(bs)
      case None => None
      case Some((c, n)) =>
        match DecodeAll(bs[n..])
        case None => None
        case Some(rest) => Some([c] + rest)
  }

  /** Decoding the encoding of a char gives the char back, whatever follows it. */
  lemma DecodeFirstEncode(c: char, rest: seq<byte>)
    ensures DecodeFirst(Encode(c) + rest) == Some((c, Utf8Len(c)))
  {
    var v := c as int;
    if v < 0x80 {
    } else if v < 0x800 {
      DecodeTwoBytes(c, rest);
    } else if v < 0x1_0000 {
      DecodeThreeBytes(c, rest);
    } else {
      DecodeFourBytes(c, rest);
    }
  }

  lemma DecodeTwoBytes(c: char, rest: seq<byte>)
    requires 0x80 <= c as int < 0x800
    ensures DecodeFirst(Encode(c) + rest) == Some((c, 2))
  {
    var v := c as int;
    assert (v / 64) * 64 + v % 64 == v;
  }

  lemma DecodeThreeBytes(c: char, rest: seq<byte>)
    requires 0x800 <= c as int < 0x1_0000
    ensures DecodeFirst(Encode(c) + rest) == Some((c, 3))
  {
    var v := c as int;
    var bs := Encode(c) + rest;
    assert bs[0] as int - 0xE0 == v / 4096;
    assert (v / 4096) * 4096 + ((v / 64) % 64) * 64 + v % 64 == v;
  }

  lemma DecodeFourBytes(c: char, rest: seq<byte>)
    requires 0x1_0000 <= c as int
    ensures DecodeFirst(Encode(c) + rest) == Some((c, 4))
  {
    var v := c as int;
    var bs := Encode(c) + rest;
    var q1, q2, q3 := v / 64, v / 4096, v / 262144;
    assert v == q1 * 64 + v % 64;
    assert q1 == q2 * 64 + q1 % 64 by {
      assert q2 == q1 / 64;
    }
    assert q2 == q3 * 64 + q2 % 64 by {
      assert q3 == q2 / 64;
    }
    assert q3 < 0x11;
    assert bs[0] as int - 0xF0 == q3 && bs[1] as int - 0x80 == q2 % 64;
    assert bs[2] as int - 0x80 == q1 % 64 && bs[3] as int - 0x80 == v % 64;
    assert q3 * 262144 + (q2 % 64) * 4096 + (q1 % 64) * 64 + v % 64 == v;
  }

  lemma {:induction false} EncodeAllAppend(a: seq<char>, b: seq<char>)
    ensures EncodeAll(a + b) == EncodeAll(a) + EncodeAll(b)
  {
    if a == [] {
      assert a + b == b;
    } else {
      assert (a + b)[1..] == a[1..] + b;
      EncodeAllAppend(a[1..], b);
    }
  }

  /** `from_utf8` accepts every encoding of a char sequence and gives it back. */
  lemma {:induction false} DecodeAllEncodeAll(cs: seq<char>)
    ensures DecodeAll(EncodeAll(cs)) == Some(cs)
  {
    if cs != [] {
      var bs := EncodeAll(cs);
      DecodeFirstEncode(cs[0], EncodeAll(cs[1..]));
      assert bs[Utf8Len(cs[0])..] == EncodeAll(cs[1..]);
      DecodeAllEncodeAll(cs[1..]);
      assert [cs[0]] + cs[1..] == cs;
    }
  }

  /** Decoding is the inverse of encoding in the other direction too. */
  lemma {:induction false} EncodeAllDecodeAll(bs: seq<byte>)
    requires DecodeAll(bs).Some?
    ensures EncodeAll(DecodeAll(bs).value) == bs
    decreases |bs|
  {
    if bs != [] {
      var (c, n) := DecodeFirst(bs).value;
      var cs := DecodeAll(bs).value;
      assert cs[0] == c && cs[1..] == DecodeAll(bs[n..]).value;
      assert EncodeAll(cs[1..]) == bs[n..] by {
        EncodeAllDecodeAll(bs[n..]);
      }
      assert Encode(c) == bs[..n] by {
        EncodeOfDecoded(bs);
      }
      assert bs == bs[..n] + bs[n..];
    }
  }

  lemma DivMod64(q: int, r: int)
    requires 0 <= r < 64
    ensures (q * 64 + r) / 64 == q && (q * 64 + r) % 64 == r
  {
  }

  /** The bytes `DecodeFirst` consumes are exactly the encoding of the char it returns. */
  lemma EncodeOfDecoded(bs: seq<byte>)
    requires DecodeFirst(bs).Some?
    ensures Encode(DecodeFirst(bs).value.0) == bs[..DecodeFirst(bs).value.1]
  {
    var n := DecodeFirst(bs).value.1;
    if n == 2 {
      EncodeOfDecoded2(bs);
    } else if n == 3 {
      EncodeOfDecoded3(bs);
    } else if n == 4 {
      EncodeOfDecoded4(bs);
    }
  }

  lemma EncodeOfDecoded2(bs: seq<byte>)
    requires DecodeFirst(bs).Some? && DecodeFirst(bs).value.1 == 2
    ensures Encode(DecodeFirst(bs).value.0) == bs[..2]
  {
    var v := DecodeFirst(bs).value.0 as int;
    assert v == (bs[0] as int - 0xC0) * 64 + (bs[1] as int - 0x80);
    DivMod64(bs[0] as int - 0xC0, bs[1] as int - 0x80);
  }

  lemma EncodeOfDecoded3(bs: seq<byte>)
    requires DecodeFirst(bs).Some? && DecodeFirst(bs).value.1 == 3
    ensures Encode(DecodeFirst(bs).value.0) == bs[..3]
  {
    var v := DecodeFirst(bs).value.0 as int;
    var hi := (bs[0] as int - 0xE0) * 64 + (bs[1] as int - 0x80);
    assert v == hi * 64 + (bs[2] as int - 0x80);
    DivMod64(hi, bs[2] as int - 0x80);
    DivMod64(bs[0] as int - 0xE0, bs[1] as int - 0x80);
    assert v / 4096 == (v / 64) / 64;
  }

  lemma EncodeOfDecoded4(bs: seq<byte>)
    requires DecodeFirst(bs).Some? && DecodeFirst(bs).value.1 == 4
    ensures Encode(DecodeFirst(bs).value.0) == bs[..4]
  {
    var v := DecodeFirst(bs).value.0 as int;
    var h1 := (bs[0] as int - 0xF0) * 64 + (bs[1] as int - 0x80);
    var h2 := h1 * 64 + (bs[2] as int - 0x80);
    assert v == h2 * 64 + (bs[3] as int - 0x80);
    DivMod64(h2, bs[3] as int - 0x80);
    DivMod64(h1, bs[2] as int - 0x80);
    DivMod64(bs[0] as int - 0xF0, bs[1] as int - 0x80);
    assert v / 4096 == (v / 64) / 64;
    assert v / 262144 == ((v / 64) / 64) / 64;
  }
}
