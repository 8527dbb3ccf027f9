// Byte strings, digests and the hash they are made with.
//
// SHA-256 is never defined: every definition that hashes takes the hash as an
// argument.  A total function from unbounded inputs to 32 bytes always has
// collisions, so "or there is a collision" is only ever stated about byte
// strings that the computations under discussion really hash.
module Bytes {

  datatype Option<+T> = None | Some(value: T)

  datatype Result<+T, +E> = Ok(value: T) | Err(error: E)

  lemma Regroup<T>(x: seq<T>, y: seq<T>, z: seq<T>)
    ensures (x + y) + z == x + (y + z)
  {
  }

  type byte = b: int | 0 <= b < 256

  type Octets = seq<byte>

  type Digest = d: seq<byte> | |d| == 32 witness seq(32, _ => 0)

  type Hash = Octets -> Digest

  /** Two different inputs with the same digest. */
  predicate Collides(h: Hash, x: Octets, y: Octets) {
    x != y && h(x) == h(y)
  }

  /** One of the first inputs collides with one of the second. */
  ghost predicate CollisionAmong(h: Hash, xs: seq<Octets>, ys: seq<Octets>) {
    exists x, y :: x in xs && y in ys && Collides(h, x, y)
  }

  lemma CollisionFound(h: Hash, xs: seq<Octets>, i: nat, ys: seq<Octets>, j: nat)
    requires i < |xs| && j < |ys| && Collides(h, xs[i], ys[j])
    ensures CollisionAmong(h, xs, ys)
  {
    assert xs[i] in xs && ys[j] in ys;
  }

  lemma CollisionMonotone(h: Hash, xs: seq<Octets>, ys: seq<Octets>, xs': seq<Octets>, ys': seq<Octets>)
    requires CollisionAmong(h, xs, ys)
    requires forall x :: x in xs ==> x in xs'
    requires forall y :: y in ys ==> y in ys'
    ensures CollisionAmong(h, xs', ys')
  {
    var x, y :| x in xs && y in ys && Collides(h, x, y);
    assert x in xs' && y in ys';
  }

  // ---- hexadecimal ---------------------------------------------------------

  function HexDigit(n: int): (c: char)
    requires 0 <= n < 16
    ensures IsHexChar(c) && HexValue(c) == n
  {
    if n < 10 then '0' + n as char else 'a' + (n - 10) as char
  }

  /** bytes.hex(): two lower-case digits a byte. */
  function Hex(bs: Octets): (s: string)
    ensures |s| == 2 * |bs|
  {
    if bs == [] then "" else [HexDigit(bs[0] / 16), HexDigit(bs[0] % 16)] + Hex(bs[1..])
  }

  predicate IsHexChar(c: char) {
    '0' <= c <= '9' || 'a' <= c <= 'f' || 'A' <= c <= 'F'
  }

  function HexValue(c: char): (n: int)
    requires IsHexChar(c)
    ensures 0 <= n < 16
  {
    if '0' <= c <= '9' then c as int - '0' as int
    else if 'a' <= c <= 'f' then c as int - 'a' as int + 10
    else c as int - 'A' as int + 10
  }

  lemma HexSpelled()
    ensures Hex([0x0F, 0xA9]) == "0fa9"
  {
    assert [0x0F, 0xA9][1..] == [0xA9] && [0xA9][1..] == [];
    assert Hex([0xA9]) == "a9";
  }

  predicate IsAsciiSpace(c: char) {
    c == ' ' || '\t' <= c <= '\r'
  }

  /** bytes.fromhex(): either letter case, ASCII white space between bytes. */
  function FromHex(s: string): (r: Option<Octets>) {
    if s == "" then Some([])
    else if IsAsciiSpace(s[0]) then FromHex(s[1..])
    else if |s| < 2 || !IsHexChar(s[0]) || !IsHexChar(s[1]) then None
    else
      match FromHex(s[2..])
      case None => None
      case Some(rest) =>
        var b: byte := 16 * HexValue(s[0]) + HexValue(s[1]);
        Some([b] + rest)
  }

  predicate AllHex(s: string) {
    forall i :: 0 <= i < |s| ==> IsHexChar(s[i])
  }

  lemma {:induction false} HexIsHex(bs: Octets)
    ensures AllHex(Hex(bs))
  {
    if bs != [] {
      HexIsHex(bs[1..]);
    }
  }

  lemma FromHexStep(b: byte, rest: string)
    requires FromHex(rest).Some?
    ensures FromHex([HexDigit(b / 16), HexDigit(b % 16)] + rest) == Some([b] + FromHex(rest).value)
  {
    assert ([HexDigit(b / 16), HexDigit(b % 16)] + rest)[2..] == rest;
  }

  lemma {:induction false} HexRoundTrip(bs: Octets)
    ensures FromHex(Hex(bs)) == Some(bs)
  {
    if bs != [] {
      HexRoundTrip(bs[1..]);
      FromHexStep(bs[0], Hex(bs[1..]));
      assert bs == [bs[0]] + bs[1..];
    }
  }

  /** The letters A to F in lower case. */
  function LowerHexChar(c: char): char {
    if 'A' <= c <= 'F' then 'a' + (c - 'A') else c
  }

  function LowerHex(s: string): (r: string)
    ensures |r| == |s| && forall i :: 0 <= i < |s| ==> r[i] == LowerHexChar(s[i])
  {
    seq(|s|, i requires 0 <= i < |s| => LowerHexChar(s[i]))
  }

  lemma HexCharIff(c: char, n: int)
    requires 0 <= n < 16
    ensures LowerHexChar(c) == HexDigit(n) <==> IsHexChar(c) && HexValue(c) == n
  {
  }

  lemma HexPairIff(c: char, d: char, b: byte)
    ensures LowerHexChar(c) == HexDigit(b / 16) && LowerHexChar(d) == HexDigit(b % 16) <==>
            IsHexChar(c) && IsHexChar(d) && b == 16 * HexValue(c) + HexValue(d)
  {
    HexCharIff(c, b / 16);
    HexCharIff(d, b % 16);
  }

  lemma SpelledIff(s: string, b: byte, bs: Octets)
    requires |s| >= 2
    ensures LowerHex(s) == Hex([b] + bs) <==>
            LowerHexChar(s[0]) == HexDigit(b / 16) && LowerHexChar(s[1]) == HexDigit(b % 16) &&
            LowerHex(s[2..]) == Hex(bs)
  {
    assert ([b] + bs)[1..] == bs;
    var digits := Hex([b] + bs);
    assert digits[0] == HexDigit(b / 16) && digits[1] == HexDigit(b % 16) && digits[2..] == Hex(bs);
    assert LowerHex(s)[2..] == LowerHex(s[2..]);
    assert LowerHex(s) == [LowerHex(s)[0], LowerHex(s)[1]] + LowerHex(s)[2..];
    assert digits == [digits[0], digits[1]] + digits[2..];
  }

  /** Without white space, what is decoded is exactly what the digits say. */
  lemma {:induction false} FromHexReads(s: string)
    ensures FromHex(s).Some? ==> 2 * |FromHex(s).value| <= |s|
    ensures FromHex(s).Some? && 2 * |FromHex(s).value| == |s| ==> LowerHex(s) == Hex(FromHex(s).value)
  {
    if s != "" && FromHex(s).Some? {
      if IsAsciiSpace(s[0]) {
        FromHexReads(s[1..]);
      } else {
        var b, bs := FromHex(s).value[0], FromHex(s[2..]).value;
        FromHexReads(s[2..]);
        HexPairIff(s[0], s[1], b);
        SpelledIff(s, b, bs);
      }
    }
  }

  lemma {:induction false} FromLowerHex(s: string, bs: Octets)
    requires LowerHex(s) == Hex(bs)
    ensures FromHex(s) == Some(bs)
  {
    if bs != [] {
      assert bs == [bs[0]] + bs[1..] && |s| == 2 * |bs|;
      SpelledIff(s, bs[0], bs[1..]);
      HexPairIff(s[0], s[1], bs[0]);
      FromLowerHex(s[2..], bs[1..]);
    }
  }

  lemma HexInjective(a: Octets, b: Octets)
    requires Hex(a) == Hex(b)
    ensures a == b
  {
    HexRoundTrip(a);
    HexRoundTrip(b);
  }
}
