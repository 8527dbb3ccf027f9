// Text helpers shared by the models: UTF-8, decimal numbers, str.strip, lines.
module Text {
  import opened Bytes

  // ---- UTF-8 ---------------------------------------------------------------

  predicate IsScalar(n: int) {
    0 <= n < 0xD800 || 0xE000 <= n < 0x11_0000
  }

  function EncodeChar(c: char): (bs: Octets)
    ensures 1 <= |bs| <= 4
  {
    var n := c as int;
    if n < 0x80 then [n]
    else if n < 0x800 then [0xC0 + n / 64, 0x80 + n % 64]
    else if n < 0x1_0000 then [0xE0 + n / 4096, 0x80 + n / 64 % 64, 0x80 + n % 64]
    else [0xF0 + n / 0x4_0000, 0x80 + n / 4096 % 64, 0x80 + n / 64 % 64, 0x80 + n % 64]
  }

  /** str.encode("utf-8") */
  function Utf8(s: string): Octets {
    if s == "" then [] else EncodeChar(s[0]) + Utf8(s[1..])
  }

  /** One character of each length, in bytes. */
  lemma Utf8Lengths()
    ensures EncodeChar('A') == [0x41] && EncodeChar('\U{E9}') == [0xC3, 0xA9]
    ensures EncodeChar('\U{20AC}') == [0xE2, 0x82, 0xAC] && EncodeChar('\U{1F600}') == [0xF0, 0x9F, 0x98, 0x80]
  {
  }

  /** The code point the first bytes announce; DecodeFirst checks that they spell it. */
  function Announced(bs: Octets): int
    requires bs != []
  {
    if bs[0] < 0x80 then bs[0] as int
    else if bs[0] < 0xE0 then
      if |bs| < 2 then -1 else 64 * (bs[0] as int) + (bs[1] as int) - 0x3080
    else if bs[0] < 0xF0 then
      if |bs| < 3 then -1 else 4096 * (bs[0] as int) + 64 * (bs[1] as int) + (bs[2] as int) - 0xE_2080
    else
      if |bs| < 4 then -1
      else 0x4_0000 * (bs[0] as int) + 4096 * (bs[1] as int) + 64 * (bs[2] as int) + (bs[3] as int) - 0x3C8_2080
  }

  function DecodeFirst(bs: Octets): (r: Option<char>)
    requires bs != []
    ensures r.Some? ==> EncodeChar(r.value) <= bs
  {
    var n := Announced(bs);
    if !IsScalar(n) then None
    else if EncodeChar(n as char) <= bs then Some(n as char) else None
  }

  lemma Utf8Cons(c: char, rest: string, bs: Octets)
    requires EncodeChar(c) <= bs && Utf8(rest) == bs[|EncodeChar(c)|..]
    ensures Utf8([c] + rest) == bs
  {
    assert ([c] + rest)[1..] == rest;
  }

  /** bytes.decode("utf-8"), strict. */
  function FromUtf8(bs: Octets): (r: Option<string>)
    ensures r.Some? ==> Utf8(r.value) == bs
    decreases |bs|
  {
    if bs == [] then Some("")
    else
      match DecodeFirst(bs)
      case None => None
      case Some(c) =>
        match FromUtf8(bs[|EncodeChar(c)|..])
        case None => None
        case Some(rest) => Utf8Cons(c, rest, bs); Some([c] + rest)
  }

  lemma Base64Digits(n: nat)
    ensures n == 64 * (n / 64) + n % 64
    ensures n / 64 == 64 * (n / 4096) + n / 64 % 64
    ensures n / 4096 == 64 * (n / 0x4_0000) + n / 4096 % 64
  {
  }

  lemma AnnouncedIsEncoded(c: char, rest: Octets)
    ensures Announced(EncodeChar(c) + rest) == c as int
  {
    var n := c as int;
    Base64Digits(n);
    var bs := EncodeChar(c) + rest;
    var e := EncodeChar(c);
    assert bs[0] == e[0];
    assert |e| > 1 ==> bs[1] == e[1];
    assert |e| > 2 ==> bs[2] == e[2];
    assert |e| > 3 ==> bs[3] == e[3];
  }

  lemma DecodeEncoded(c: char, rest: Octets)
    ensures DecodeFirst(EncodeChar(c) + rest) == Some(c)
  {
    AnnouncedIsEncoded(c, rest);
    assert IsScalar(c as int);
    assert EncodeChar(c) <= EncodeChar(c) + rest;
  }

  lemma {:induction false} Utf8RoundTrip(s: string)
    ensures FromUtf8(Utf8(s)) == Some(s)
  {
    if s != "" {
      var bs := Utf8(s);
      DecodeEncoded(s[0], Utf8(s[1..]));
      assert bs[|EncodeChar(s[0])|..] == Utf8(s[1..]);
      Utf8RoundTrip(s[1..]);
      assert s == [s[0]] + s[1..];
    }
  }

  lemma Utf8Injective(s: string, t: string)
    requires Utf8(s) == Utf8(t)
    ensures s == t
  {
    Utf8RoundTrip(s);
    Utf8RoundTrip(t);
  }

  // ---- decimal numbers -----------------------------------------------------

  predicate IsDigit(c: char) {
    '0' <= c <= '9'
  }

  predicate AllDigits(s: string) {
    forall i :: 0 <= i < |s| ==> IsDigit(s[i])
  }

  function Digit(n: nat): (c: char)
    requires n < 10
    ensures IsDigit(c)
  {
    '0' + n as char
  }

  /** str(n) for n >= 0 */
  function Decimal(n: nat): (s: string)
    ensures s != "" && AllDigits(s)
  {
    if n < 10 then [Digit(n)] else Decimal(n / 10) + [Digit(n % 10)]
  }

  function DigitsValue(s: string): nat
    requires AllDigits(s)
  {
    if s == "" then 0 else 10 * DigitsValue(s[..|s| - 1]) + (s[|s| - 1] as int - '0' as int)
  }

  lemma {:induction false} DecimalValue(n: nat)
    ensures DigitsValue(Decimal(n)) == n
  {
    if n >= 10 {
      DecimalValue(n / 10);
      assert Decimal(n)[..|Decimal(n)| - 1] == Decimal(n / 10);
    } else {
      assert [Digit(n)][..0] == "";
    }
  }

  /** str(n) for any int */
  function DecimalInt(n: int): (s: string)
    ensures s != ""
  {
    if n < 0 then "-" + Decimal(-n) else Decimal(n)
  }

  lemma DecimalsSpelled()
    ensures DecimalInt(907) == "907" && DecimalInt(-40) == "-40" && DecimalInt(0) == "0"
  {
    assert Decimal(9) == "9" && Decimal(90) == "90" && Decimal(907) == "907";
    assert Decimal(4) == "4" && Decimal(40) == "40";
  }

  lemma DecimalInjective(m: nat, n: nat)
    requires Decimal(m) == Decimal(n)
    ensures m == n
  {
    DecimalValue(m);
    DecimalValue(n);
  }

  lemma DecimalIntInjective(m: int, n: int)
    requires DecimalInt(m) == DecimalInt(n)
    ensures m == n
  {
    assert m >= 0 ==> IsDigit(DecimalInt(m)[0]);
    assert n >= 0 ==> IsDigit(DecimalInt(n)[0]);
    if m < 0 && n < 0 {
      assert Decimal(-m) == DecimalInt(m)[1..] == DecimalInt(n)[1..] == Decimal(-n);
      DecimalInjective(-m, -n);
    } else if m >= 0 && n >= 0 {
      DecimalInjective(m, n);
    }
  }

  /** The longest run of digits at the front. */
  function DigitRun(s: string): (k: nat)
    ensures k <= |s| && AllDigits(s[..k])
    ensures k < |s| ==> !IsDigit(s[k])
  {
    if s == "" || !IsDigit(s[0]) then 0
    else
      var k := DigitRun(s[1..]);
      assert s[..k + 1] == [s[0]] + s[1..][..k];
      k + 1
  }

  lemma {:induction false} DigitRunOf(a: string, rest: string)
    requires AllDigits(a) && (rest == "" || !IsDigit(rest[0]))
    ensures DigitRun(a + rest) == |a|
  {
    if a == "" {
      assert a + rest == rest;
    } else {
      assert (a + rest)[1..] == a[1..] + rest;
      DigitRunOf(a[1..], rest);
    }
  }

  // ---- white space and lines -----------------------------------------------

  /** str.isspace() on one character. */
  predicate IsSpace(c: char) {
    var n := c as int;
    9 <= n <= 13 || 28 <= n <= 32 || n == 0x85 || n == 0xA0 || n == 0x1680 || 0x2000 <= n <= 0x200A
    || n == 0x2028 || n == 0x2029 || n == 0x202F || n == 0x205F || n == 0x3000
  }

  function StripLeft(s: string): string {
    if s != "" && IsSpace(s[0]) then StripLeft(s[1..]) else s
  }

  function StripRight(s: string): string {
    if s != "" && IsSpace(s[|s| - 1]) then StripRight(s[..|s| - 1]) else s
  }

  /** str.strip() */
  function Strip(s: string): string {
    StripRight(StripLeft(s))
  }

  predicate AllSpace(s: string) {
    forall i :: 0 <= i < |s| ==> IsSpace(s[i])
  }

  lemma {:induction false} StripLeftIs(s: string) returns (front: string)
    ensures AllSpace(front) && s == front + StripLeft(s)
    ensures StripLeft(s) == "" || !IsSpace(StripLeft(s)[0])
  {
    front := "";
    if s != "" && IsSpace(s[0]) {
      front := StripLeftIs(s[1..]);
      front := [s[0]] + front;
    }
  }

  lemma {:induction false} StripRightIs(s: string) returns (back: string)
    ensures AllSpace(back) && s == StripRight(s) + back
    ensures StripRight(s) == "" || !IsSpace(StripRight(s)[|StripRight(s)| - 1])
  {
    back := "";
    if s != "" && IsSpace(s[|s| - 1]) {
      back := StripRightIs(s[..|s| - 1]);
      back := back + [s[|s| - 1]];
    }
  }

  /** What is stripped is white space at the ends, and none is left there. */
  lemma StripIs(s: string) returns (front: string, back: string)
    ensures s == front + Strip(s) + back && AllSpace(front) && AllSpace(back)
    ensures Strip(s) != "" ==> !IsSpace(Strip(s)[0]) && !IsSpace(Strip(s)[|Strip(s)| - 1])
  {
    front := StripLeftIs(s);
    back := StripRightIs(StripLeft(s));
    assert Strip(s) != "" ==> Strip(s)[0] == StripLeft(s)[0];
  }

  /** Where the first newline is; the length of the text when there is none. */
  function LineEnd(s: string): (k: nat)
    ensures k <= |s| && '\n' !in s[..k]
    ensures k < |s| ==> s[k] == '\n'
    ensures '\n' !in s ==> k == |s|
  {
    if s == "" || s[0] == '\n' then 0
    else
      var k := LineEnd(s[1..]);
      assert s[..k + 1] == [s[0]] + s[1..][..k];
      k + 1
  }

  lemma {:induction false} LineEndOf(line: string, rest: string)
    requires '\n' !in line
    ensures LineEnd(line + (['\n'] + rest)) == |line|
  {
    if line == "" {
      assert line + (['\n'] + rest) == ['\n'] + rest;
    } else {
      assert (line + (['\n'] + rest))[1..] == line[1..] + (['\n'] + rest);
      LineEndOf(line[1..], rest);
    }
  }
}
