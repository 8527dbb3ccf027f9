// Unpadded base64 with the URL alphabet (section 5 of RFC 4648) as Python's
// base64 module writes it, and the lenient decoder that reads it back.
module Base64 {
  import opened Bytes

  type Sextet = n: int | 0 <= n < 64

  function Symbol(n: Sextet): (c: char)
    ensures c != '=' && ValueOf(c) == Some(n)
  {
    if n < 26 then 'A' + n as char
    else if n < 52 then 'a' + (n - 26) as char
    else if n < 62 then '0' + (n - 52) as char
    else if n == 62 then '-'
    else '_'
  }

  /** The decoder also knows the two characters of the standard alphabet. */
  function ValueOf(c: char): Option<Sextet> {
    if 'A' <= c <= 'Z' then Some((c as int - 'A' as int) as Sextet)
    else if 'a' <= c <= 'z' then Some((c as int - 'a' as int + 26) as Sextet)
    else if '0' <= c <= '9' then Some((c as int - '0' as int + 52) as Sextet)
    else if c == '-' || c == '+' then Some(62)
    else if c == '_' || c == '/' then Some(63)
    else None
  }

  /** base64.urlsafe_b64encode */
  function Encode(bs: Octets): string {
    if |bs| == 0 then ""
    else if |bs| == 1 then [Symbol(bs[0] / 4), Symbol(bs[0] % 4 * 16), '=', '=']
    else if |bs| == 2 then
      [Symbol(bs[0] / 4), Symbol(bs[0] % 4 * 16 + bs[1] / 16), Symbol(bs[1] % 16 * 4), '=']
    else
      [Symbol(bs[0] / 4), Symbol(bs[0] % 4 * 16 + bs[1] / 16), Symbol(bs[1] % 16 * 4 + bs[2] / 64), Symbol(bs[2] % 64)]
      + Encode(bs[3..])
  }

  /** rstrip("=") */
  function StripPadding(s: string): string {
    if s != "" && s[|s| - 1] == '=' then StripPadding(s[..|s| - 1]) else s
  }

  /** "=" * (-len(s) % 4) after s. */
  function Repad(s: string): string {
    s + match |s| % 4
        case 0 => ""
        case 1 => "==="
        case 2 => "=="
        case _ => "="
  }

  function Unpadded(bs: Octets): string {
    StripPadding(Encode(bs))
  }

  /** Letters, digits, `-` and `_`, in this order; and three examples of whole and broken groups. */
  lemma AlphabetSpelled()
    ensures Symbol(0) == 'A' && Symbol(25) == 'Z' && Symbol(26) == 'a' && Symbol(51) == 'z'
    ensures Symbol(52) == '0' && Symbol(61) == '9' && Symbol(62) == '-' && Symbol(63) == '_'
    ensures Encode([77, 97, 110]) == "TWFu" && Encode([77, 97]) == "TWE=" && Unpadded([0xFB, 0xFF]) == "-_8"
  {
    assert [77, 97, 110][3..] == [];
    assert Encode([0xFB, 0xFF]) == "-_8" + "=";
    assert ("-_8" + "=")[..3] == "-_8";
  }

  /** Where the decoder is in a group of four: how many symbols, the bits left over, the padding seen. */
  datatype Quad = Quad(count: nat, left: nat, pads: nat)

  /** binascii.a2b_base64 without strict mode: other characters are skipped, enough padding ends the input. */
  function DecodeFrom(s: string, q: Quad): Option<Octets> {
    if s == "" then if q.count == 0 then Some([]) else None
    else if s[0] == '=' then
      if q.count >= 2 && q.count + q.pads + 1 >= 4 then Some([])
      else DecodeFrom(s[1..], if q.count >= 2 then q.(pads := q.pads + 1) else q)
    else
      match ValueOf(s[0])
      case None => DecodeFrom(s[1..], q)
      case Some(v) =>
        match q.count
        case 0 => DecodeFrom(s[1..], Quad(1, v, 0))
        case 1 => Emit((4 * q.left + v / 16) % 256, DecodeFrom(s[1..], Quad(2, v % 16, 0)))
        case 2 => Emit((16 * q.left + v / 4) % 256, DecodeFrom(s[1..], Quad(3, v % 4, 0)))
        case _ => Emit((64 * q.left + v) % 256, DecodeFrom(s[1..], Quad(0, 0, 0)))
  }

  function Emit(b: byte, rest: Option<Octets>): Option<Octets> {
    match rest
    case None => None
    case Some(bs) => Some([b] + bs)
  }

  /** base64.urlsafe_b64decode on ASCII text; other text is refused. */
  function Decode(s: string): Option<Octets> {
    if exists i :: 0 <= i < |s| && s[i] as int >= 128 then None else DecodeFrom(s, Quad(0, 0, 0))
  }

  const START := Quad(0, 0, 0)

  // ---- round trip ----------------------------------------------------------

  lemma OneSymbol(n: Sextet, rest: string, q: Quad)
    ensures DecodeFrom([Symbol(n)] + rest, q) ==
            match q.count
            case 0 => DecodeFrom(rest, Quad(1, n, 0))
            case 1 => Emit((4 * q.left + n / 16) % 256, DecodeFrom(rest, Quad(2, n % 16, 0)))
            case 2 => Emit((16 * q.left + n / 4) % 256, DecodeFrom(rest, Quad(3, n % 4, 0)))
            case _ => Emit((64 * q.left + n) % 256, DecodeFrom(rest, START))
  {
    assert ([Symbol(n)] + rest)[1..] == rest;
  }

  lemma DecodeTwo(m: Sextet, n: Sextet, rest: string)
    ensures DecodeFrom([Symbol(m), Symbol(n)] + rest, START) ==
            Emit((4 * m + n / 16) % 256, DecodeFrom(rest, Quad(2, n % 16, 0)))
  {
    OneSymbol(m, [Symbol(n)] + rest, START);
    OneSymbol(n, rest, Quad(1, m, 0));
    assert [Symbol(m), Symbol(n)] + rest == [Symbol(m)] + ([Symbol(n)] + rest);
  }

  lemma DecodeThree(m: Sextet, n: Sextet, o: Sextet, rest: string)
    ensures DecodeFrom([Symbol(m), Symbol(n), Symbol(o)] + rest, START) ==
            Emit((4 * m + n / 16) % 256, Emit((16 * (n % 16) + o / 4) % 256, DecodeFrom(rest, Quad(3, o % 4, 0))))
  {
    DecodeTwo(m, n, [Symbol(o)] + rest);
    OneSymbol(o, rest, Quad(2, n % 16, 0));
    assert [Symbol(m), Symbol(n), Symbol(o)] + rest == [Symbol(m), Symbol(n)] + ([Symbol(o)] + rest);
  }

  lemma DecodeFour(m: Sextet, n: Sextet, o: Sextet, p: Sextet, rest: string)
    ensures DecodeFrom([Symbol(m), Symbol(n), Symbol(o), Symbol(p)] + rest, START) ==
            Emit((4 * m + n / 16) % 256,
                 Emit((16 * (n % 16) + o / 4) % 256, Emit((64 * (o % 4) + p) % 256, DecodeFrom(rest, START))))
  {
    DecodeThree(m, n, o, [Symbol(p)] + rest);
    OneSymbol(p, rest, Quad(3, o % 4, 0));
    assert [Symbol(m), Symbol(n), Symbol(o), Symbol(p)] + rest
        == [Symbol(m), Symbol(n), Symbol(o)] + ([Symbol(p)] + rest);
  }

  lemma PaddingEnds(left: nat)
    ensures DecodeFrom("=", Quad(3, left, 0)) == Some([]) == DecodeFrom("==", Quad(2, left, 0))
  {
    assert "=="[1..] == "=";
    assert DecodeFrom("=", Quad(2, left, 1)) == Some([]);
  }

  lemma EmitLast(a: byte, b: byte)
    ensures Emit(a, Some([])) == Some([a]) && Emit(a, Emit(b, Some([]))) == Some([a, b])
  {
    assert [a] + [] == [a] && [b] + [] == [b] && [a] + [b] == [a, b];
  }

  lemma Bits(a: byte, b: byte, c: byte)
    ensures (4 * (a / 4) + (a % 4 * 16 + b / 16) / 16) % 256 == a
    ensures (16 * ((a % 4 * 16 + b / 16) % 16) + (b % 16 * 4 + c / 64) / 4) % 256 == b
    ensures (64 * ((b % 16 * 4 + c / 64) % 4) + c % 64) % 256 == c
  {
  }

  lemma DecodeGroup(a: byte, b: byte, c: byte, rest: string)
    ensures DecodeFrom([Symbol(a / 4), Symbol(a % 4 * 16 + b / 16), Symbol(b % 16 * 4 + c / 64), Symbol(c % 64)] + rest,
                       START)
            == Emit(a, Emit(b, Emit(c, DecodeFrom(rest, START))))
  {
    Bits(a, b, c);
    DecodeFour(a / 4, a % 4 * 16 + b / 16, b % 16 * 4 + c / 64, c % 64, rest);
  }

  lemma DecodeLastTwo(a: byte, b: byte)
    ensures DecodeFrom([Symbol(a / 4), Symbol(a % 4 * 16 + b / 16), Symbol(b % 16 * 4), '='], START) == Some([a, b])
  {
    Bits(a, b, 0);
    DecodeThree(a / 4, a % 4 * 16 + b / 16, b % 16 * 4, "=");
    PaddingEnds((b % 16 * 4) % 4);
    assert [Symbol(a / 4), Symbol(a % 4 * 16 + b / 16), Symbol(b % 16 * 4), '=']
        == [Symbol(a / 4), Symbol(a % 4 * 16 + b / 16), Symbol(b % 16 * 4)] + "=";
    EmitLast(a, b);
  }

  lemma DecodeLastOne(a: byte)
    ensures DecodeFrom([Symbol(a / 4), Symbol(a % 4 * 16), '=', '='], START) == Some([a])
  {
    Bits(a, 0, 0);
    DecodeTwo(a / 4, a % 4 * 16, "==");
    PaddingEnds((a % 4 * 16) % 16);
    assert [Symbol(a / 4), Symbol(a % 4 * 16), '=', '='] == [Symbol(a / 4), Symbol(a % 4 * 16)] + "==";
    EmitLast(a, 0);
  }

  lemma ThreeOff(bs: Octets)
    requires |bs| > 2
    ensures bs == [bs[0]] + ([bs[1]] + ([bs[2]] + bs[3..]))
  {
  }

  lemma {:induction false} PaddedRoundTrip(bs: Octets)
    ensures DecodeFrom(Encode(bs), START) == Some(bs)
  {
    if |bs| == 0 {
    } else if |bs| == 1 {
      DecodeLastOne(bs[0]);
      assert bs == [bs[0]];
    } else if |bs| == 2 {
      DecodeLastTwo(bs[0], bs[1]);
      assert bs == [bs[0], bs[1]];
    } else {
      PaddedRoundTrip(bs[3..]);
      DecodeGroup(bs[0], bs[1], bs[2], Encode(bs[3..]));
      ThreeOff(bs);
    }
  }

  // ---- padding -------------------------------------------------------------

  lemma {:induction false} StripsBehind(s: string, t: string)
    requires s != "" && s[|s| - 1] != '='
    ensures StripPadding(s + t) == s + StripPadding(t)
    decreases |t|
  {
    if t == "" {
      assert s + t == s;
    } else {
      assert (s + t)[..|s + t| - 1] == s + t[..|t| - 1];
      StripsBehind(s, t[..|t| - 1]);
    }
  }

  lemma StripTail()
    ensures StripPadding("") == "" && StripPadding("=") == "" && StripPadding("==") == ""
  {
    assert "="[..0] == "" && "=="[..1] == "=";
  }

  lemma EncodeLast(bs: Octets)
    requires 1 <= |bs| <= 2
    ensures Repad(Unpadded(bs)) == Encode(bs)
    ensures |Unpadded(bs)| == |bs| + 1
  {
    StripTail();
    if |bs| == 1 {
      var s := [Symbol(bs[0] / 4), Symbol(bs[0] % 4 * 16)];
      StripsBehind(s, "==");
      assert Encode(bs) == s + "==";
    } else {
      var s := [Symbol(bs[0] / 4), Symbol(bs[0] % 4 * 16 + bs[1] / 16), Symbol(bs[1] % 16 * 4)];
      StripsBehind(s, "=");
      assert Encode(bs) == s + "=";
    }
  }

  function Group(a: byte, b: byte, c: byte): (s: string)
    ensures |s| == 4 && s[3] != '='
  {
    [Symbol(a / 4), Symbol(a % 4 * 16 + b / 16), Symbol(b % 16 * 4 + c / 64), Symbol(c % 64)]
  }

  lemma RepadBehind(group: string, s: string)
    requires |group| == 4
    ensures Repad(group + s) == group + Repad(s)
  {
    assert |group + s| % 4 == |s| % 4;
  }

  /** Stripping the padding and putting it back is the identity on what the encoder writes. */
  lemma {:induction false} RepadStripped(bs: Octets)
    ensures Repad(Unpadded(bs)) == Encode(bs)
    ensures |Unpadded(bs)| == (4 * |bs| + 2) / 3
  {
    if |bs| == 0 {
    } else if |bs| <= 2 {
      EncodeLast(bs);
    } else {
      var rest := Encode(bs[3..]);
      RepadStripped(bs[3..]);
      StripsBehind(Group(bs[0], bs[1], bs[2]), rest);
      RepadBehind(Group(bs[0], bs[1], bs[2]), StripPadding(rest));
    }
  }

  lemma {:induction false} EncodedIsAscii(bs: Octets)
    ensures forall c :: c in Encode(bs) ==> c as int < 128
  {
    if |bs| > 2 {
      EncodedIsAscii(bs[3..]);
    }
  }

  /** Every byte string comes back from its unpadded text. */
  lemma UnpaddedRoundTrip(bs: Octets)
    ensures Decode(Repad(Unpadded(bs))) == Some(bs)
  {
    RepadStripped(bs);
    PaddedRoundTrip(bs);
    EncodedIsAscii(bs);
    assert forall i :: 0 <= i < |Encode(bs)| ==> Encode(bs)[i] in Encode(bs);
  }
}
