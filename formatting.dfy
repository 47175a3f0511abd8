/**
 * The text helpers the configuration code leans on: `u16` ports written in
 * decimal by `format!("{}", port)`, `str::to_lowercase` on the ASCII letters,
 * and the `"<scheme>://<host>:<port>"` strings built from host and port.
 */
module Formatting {
  newtype u16 = x: int | 0 <= x < 0x1_0000

  predicate IsDigit(c: char) { '0' <= c <= '9' }

  /** `format!("{}", n)`: the decimal digits of `n`, no sign, no leading zero. */
  function Decimal(n: nat): (s: string)
    ensures s != [] && forall k :: 0 <= k < |s| ==> IsDigit(s[k])
    ensures (s[0] == '0') == (n == 0)
  {
    if n < 10 then [('0' as int + n) as char]
    else Decimal(n / 10) + [('0' as int + n % 10) as char]
  }

  /** The value a string of decimal digits denotes. */
  function DigitsValue(s: string): nat
    requires forall k :: 0 <= k < |s| ==> IsDigit(s[k])
  {
    if s == [] then 0
    else
      assert IsDigit(s[|s| - 1]);
      DigitsValue(s[..|s| - 1]) * 10 + (s[|s| - 1] as int - '0' as int)
  }

  /** Reading the digits back gives the number: `Decimal` loses nothing. */
  lemma {:induction false} DecimalValue(n: nat)
    ensures DigitsValue(Decimal(n)) == n
  {
    if n >= 10 {
      var s := Decimal(n);
      assert s[..|s| - 1] == Decimal(n / 10);
      DecimalValue(n / 10);
    }
  }

  /** ASCII case folding, the part of `char::to_lowercase` the parsers depend on. */
  function LowerChar(c: char): (d: char)
    ensures 'A' <= c <= 'Z' ==> d as int == c as int + 32
    ensures !('A' <= c <= 'Z') ==> d == c
  {
    if 'A' <= c <= 'Z' then (c as int + 32) as char else c
  }

  /** `str::to_lowercase`, char by char. */
  function Lower(s: string): (t: string)
    ensures |t| == |s|
    ensures forall k :: 0 <= k < |s| ==> t[k] == LowerChar(s[k])
  {
    if s == [] then [] else [LowerChar(s[0])] + Lower(s[1..])
  }

  /** Lowering twice is lowering once. */
  lemma LowerIdempotent(s: string)
    ensures Lower(Lower(s)) == Lower(s)
  {
    var t := Lower(s);
    assert forall k :: 0 <= k < |t| ==> Lower(t)[k] == t[k];
  }

  /** A string with no upper-case ASCII letter is its own lower case. */
  lemma LowerOfLower(s: string)
    requires forall k :: 0 <= k < |s| ==> !('A' <= s[k] <= 'Z')
    ensures Lower(s) == s
  {
    assert forall k :: 0 <= k < |s| ==> Lower(s)[k] == s[k];
  }

  /** `format!("{}://{}:{}", scheme, host, port)`. */
  function HostPort(scheme: string, host: string, port: u16): (s: string)
    ensures |s| == |scheme| + 3 + |host| + 1 + |Decimal(port as nat)|
    ensures s[..|scheme| + 3] == scheme + "://"
    ensures s[|scheme| + 3..|scheme| + 3 + |host|] == host
    ensures s[|s| - |Decimal(port as nat)| - 1] == ':' && s[|s| - |Decimal(port as nat)|..] == Decimal(port as nat)
  {
    scheme + "://" + host + ":" + Decimal(port as nat)
  }

  /**
   * The port is everything after the last ':', so the same string never
   * comes from two different host/port pairs.
   */
  lemma {:induction false} HostPortInjective(scheme: string, h1: string, p1: u16, h2: string, p2: u16)
    requires HostPort(scheme, h1, p1) == HostPort(scheme, h2, p2)
    ensures h1 == h2 && p1 == p2
  {
    var d1, d2 := Decimal(p1 as nat), Decimal(p2 as nat);
    var a1, a2 := scheme + "://" + h1 + ":", scheme + "://" + h2 + ":";
    var s := a1 + d1;
    assert s == a2 + d2;
    assert s[|a2| - 1] == ':' && s[|a1| - 1] == ':';
    assert forall k :: |a1| <= k < |s| ==> s[k] == d1[k - |a1|];
    assert forall k :: |a2| <= k < |s| ==> s[k] == d2[k - |a2|];
    assert |a1| == |a2|;
    assert d1 == s[|a1|..] == d2;
    assert a1 == s[..|a1|] == a2;
    assert h1 == a1[|scheme| + 3..|a1| - 1] == h2;
    DecimalValue(p1 as nat);
    DecimalValue(p2 as nat);
  }
}
