// deploy/jelleo-sse.py, _tail_one_workspace: what `fh.read()` makes of the bytes
// appended to the log since the last read.  A text file opened with
// errors="replace" decodes every such read by itself, to its last byte, and
// translates line ends.
module TailedBytes {
  import opened Bytes
  import opened Text
  import opened LogTail

  const REPLACEMENT := '\U{FFFD}'

  // ---- bytes.decode("utf-8", "replace") ------------------------------------

  predicate IsContinuation(b: byte) {
    0x80 <= b < 0xC0
  }

  /** The second byte that a first byte allows. */
  predicate Continues(first: byte, second: byte) {
    IsContinuation(second) &&
    (first == 0xE0 ==> second >= 0xA0) && (first == 0xED ==> second < 0xA0) &&
    (first == 0xF0 ==> second >= 0x90) && (first == 0xF4 ==> second < 0x90)
  }

  /** How many bytes one replacement character stands for: as far as they could have become a character. */
  function Replaced(bs: Octets): (k: nat)
    requires bs != []
    ensures 1 <= k <= |bs| && forall i :: 1 <= i < k ==> IsContinuation(bs[i])
    ensures IsContinuation(bs[0]) ==> k == 1
  {
    if !(0xC2 <= bs[0] < 0xF5) || |bs| < 2 || !Continues(bs[0], bs[1]) then 1
    else if bs[0] < 0xE0 || |bs| < 3 || !IsContinuation(bs[2]) then 2
    else 3
  }

  function Lenient(bs: Octets): string
    decreases |bs|
  {
    if bs == [] then ""
    else
      match DecodeFirst(bs)
      case Some(c) => [c] + Lenient(bs[|EncodeChar(c)|..])
      case None => [REPLACEMENT] + Lenient(bs[Replaced(bs)..])
  }

  /**
   * A character cut short at the end of a read is one replacement character, and what is left of
   * it one for each byte.
   */
  lemma CutCharacter(c: char, k: nat)
    requires 0 < k < |EncodeChar(c)|
    ensures Lenient(EncodeChar(c)[..k]) == ['\U{FFFD}']
    ensures Lenient([EncodeChar(c)[k]]) == ['\U{FFFD}']
  {
    var bs := EncodeChar(c)[..k];
    NoCharacter(bs, c);
    assert Replaced(bs) == k;
    assert bs[k..] == [];
    var b := [EncodeChar(c)[k]];
    assert IsContinuation(b[0]);
    assert Announced(b) == -1;
    assert b[1..] == [];
  }

  lemma NoCharacter(bs: Octets, c: char)
    requires bs < EncodeChar(c) && bs != []
    ensures DecodeFirst(bs) == None
  {
  }

  /** How many bytes are no continuation bytes. */
  function Starts(bs: Octets): nat {
    if bs == [] then 0 else (if IsContinuation(bs[0]) then 0 else 1) + Starts(bs[1..])
  }

  lemma {:induction false} StartsConcat(a: Octets, b: Octets)
    ensures Starts(a + b) == Starts(a) + Starts(b)
  {
    if a == [] {
      assert a + b == b;
    } else {
      assert (a + b)[1..] == a[1..] + b;
      StartsConcat(a[1..], b);
    }
  }

  lemma {:induction false} NoStarts(bs: Octets)
    requires forall i :: 0 <= i < |bs| ==> IsContinuation(bs[i])
    ensures Starts(bs) == 0
  {
    if bs != [] {
      NoStarts(bs[1..]);
    }
  }

  /** One byte and its continuation bytes. */
  lemma StartsOfOne(bs: Octets, k: nat)
    requires 1 <= k <= |bs| && forall i :: 1 <= i < k ==> IsContinuation(bs[i])
    ensures Starts(bs) == (if IsContinuation(bs[0]) then 0 else 1) + Starts(bs[k..])
  {
    var more := bs[1..k];
    NoStarts(more);
    assert bs[1..] == more + bs[k..];
    StartsConcat(more, bs[k..]);
  }

  lemma CharStarts(c: char)
    ensures !IsContinuation(EncodeChar(c)[0])
    ensures forall i :: 1 <= i < |EncodeChar(c)| ==> IsContinuation(EncodeChar(c)[i])
  {
  }

  lemma {:induction false} TextStarts(text: string)
    ensures Starts(Utf8(text)) == |text|
  {
    if text != "" {
      CharStarts(text[0]);
      TextStarts(text[1..]);
      StartsOfOne(EncodeChar(text[0]), |EncodeChar(text[0])|);
      StartsConcat(EncodeChar(text[0]), Utf8(text[1..]));
    }
  }

  /** Decoding gives a character for every byte that is no continuation byte, and one more for a stray one in front. */
  lemma {:induction false} LenientLength(bs: Octets)
    ensures |Lenient(bs)| >= Starts(bs)
    ensures bs != [] && IsContinuation(bs[0]) ==> |Lenient(bs)| > Starts(bs)
    decreases |bs|
  {
    if bs != [] {
      match DecodeFirst(bs)
      case Some(c) =>
        CharStarts(c);
        StartsOfOne(bs, |EncodeChar(c)|);
        LenientLength(bs[|EncodeChar(c)|..]);
      case None =>
        StartsOfOne(bs, Replaced(bs));
        LenientLength(bs[Replaced(bs)..]);
    }
  }

  lemma {:induction false} LenientRoundTrip(text: string)
    ensures Lenient(Utf8(text)) == text
  {
    if text != "" {
      var e, rest := EncodeChar(text[0]), Utf8(text[1..]);
      DecodeEncoded(text[0], rest);
      assert (e + rest)[|e|..] == rest;
      LenientRoundTrip(text[1..]);
      assert text == [text[0]] + text[1..];
    }
  }

  // ---- reads ---------------------------------------------------------------

  function Concat(pieces: seq<Octets>): Octets {
    if pieces == [] then [] else Concat(pieces[..|pieces| - 1]) + pieces[|pieces| - 1]
  }

  function DecodedOneByOne(pieces: seq<Octets>): string {
    if pieces == [] then "" else DecodedOneByOne(pieces[..|pieces| - 1]) + Lenient(pieces[|pieces| - 1])
  }

  /** No read begins in the middle of a character. */
  predicate CutBetweenCharacters(pieces: seq<Octets>) {
    forall i :: 0 <= i < |pieces| && pieces[i] != [] ==> !IsContinuation(pieces[i][0])
  }

  lemma CutsSnoc(pieces: seq<Octets>)
    requires pieces != []
    ensures var n := |pieces| - 1;
            CutBetweenCharacters(pieces) <==>
              CutBetweenCharacters(pieces[..n]) && (pieces[n] != [] ==> !IsContinuation(pieces[n][0]))
  {
    var n := |pieces| - 1;
    assert forall i :: 0 <= i < n ==> pieces[..n][i] == pieces[i];
  }

  lemma {:induction false} ReadsLength(pieces: seq<Octets>)
    ensures |DecodedOneByOne(pieces)| >= Starts(Concat(pieces))
    ensures !CutBetweenCharacters(pieces) ==> |DecodedOneByOne(pieces)| > Starts(Concat(pieces))
  {
    if pieces != [] {
      var n := |pieces| - 1;
      ReadsLength(pieces[..n]);
      LenientLength(pieces[n]);
      StartsConcat(Concat(pieces[..n]), pieces[n]);
      CutsSnoc(pieces);
    }
  }

  lemma CharFits(e: Octets, rest: Octets, a: Octets, b: Octets)
    requires e + rest == a + b && a != [] && (b != [] ==> !IsContinuation(b[0]))
    requires forall i :: 1 <= i < |e| ==> IsContinuation(e[i])
    ensures |e| <= |a|
  {
    assert b != [] ==> b[0] == (a + b)[|a|];
  }

  lemma TakeChar(e: Octets, rest: Octets, a: Octets, b: Octets) returns (behind: Octets)
    requires e + rest == a + b && a != [] && (b != [] ==> !IsContinuation(b[0]))
    requires forall i :: 1 <= i < |e| ==> IsContinuation(e[i])
    ensures a == e + behind && rest == behind + b
  {
    CharFits(e, rest, a, b);
    behind := a[|e|..];
    assert a[..|e|] == (a + b)[..|e|] == (e + rest)[..|e|] == e;
    assert rest == (e + rest)[|e|..] == (a + b)[|e|..];
  }

  /** Bytes that are cut before the first byte of a character are cut between characters. */
  lemma {:induction false} CutText(text: string, a: Octets, b: Octets) returns (p: string, q: string)
    requires Utf8(text) == a + b && (b != [] ==> !IsContinuation(b[0]))
    ensures text == p + q && a == Utf8(p) && b == Utf8(q)
  {
    if a == [] {
      assert a + b == b;
      p, q := "", text;
    } else {
      CharStarts(text[0]);
      var behind := TakeChar(EncodeChar(text[0]), Utf8(text[1..]), a, b);
      p, q := CutText(text[1..], behind, b);
      assert text == [text[0]] + text[1..] == ([text[0]] + p) + q;
      assert ([text[0]] + p)[1..] == p;
      p := [text[0]] + p;
    }
  }

  /**
   * The reads of a UTF-8 text, each decoded by itself, give the text back exactly when no read
   * begins inside a character.
   */
  lemma DecodedIntactIff(text: string, pieces: seq<Octets>)
    requires Concat(pieces) == Utf8(text)
    ensures DecodedOneByOne(pieces) == text <==> CutBetweenCharacters(pieces)
  {
    TextStarts(text);
    ReadsLength(pieces);
    if CutBetweenCharacters(pieces) {
      DecodedIntact(text, pieces);
    }
  }

  lemma {:induction false} DecodedIntact(text: string, pieces: seq<Octets>)
    requires Concat(pieces) == Utf8(text) && CutBetweenCharacters(pieces)
    ensures DecodedOneByOne(pieces) == text
    decreases |pieces|
  {
    if pieces == [] {
      Utf8RoundTrip(text);
    } else {
      var n := |pieces| - 1;
      var p, q := CutText(text, Concat(pieces[..n]), pieces[n]);
      assert CutBetweenCharacters(pieces[..n]);
      DecodedIntact(p, pieces[..n]);
      LenientRoundTrip(q);
    }
  }

  // ---- line ends -----------------------------------------------------------

  /** "\r\n" and "\r" are read as "\n". */
  function Universal(s: string): string
    decreases |s|
  {
    if s == "" then ""
    else if s[0] != '\r' then [s[0]] + Universal(s[1..])
    else if |s| > 1 && s[1] == '\n' then ['\n'] + Universal(s[2..])
    else ['\n'] + Universal(s[1..])
  }

  /** One line end, cut in two. */
  predicate SplitsLineEnd(p: string, q: string) {
    p != "" && p[|p| - 1] == '\r' && q != "" && q[0] == '\n'
  }

  /** What is left to read behind a first character. */
  function Behind(c: char, s: string): string {
    if c == '\r' && s != "" && s[0] == '\n' then s[1..] else s
  }

  lemma UniversalCons(c: char, s: string)
    ensures Universal([c] + s) == [if c == '\r' then '\n' else c] + Universal(Behind(c, s))
  {
    assert ([c] + s)[1..] == s;
    assert s != "" ==> ([c] + s)[1] == s[0] && ([c] + s)[2..] == s[1..];
  }

  lemma BehindConcat(c: char, p: string, q: string)
    ensures p != "" ==> Behind(c, p + q) == Behind(c, p) + q
    ensures Behind(c, p) != "" ==> (SplitsLineEnd([c] + p, q) <==> SplitsLineEnd(Behind(c, p), q))
    ensures p != "" && Behind(c, p) == "" ==> !SplitsLineEnd([c] + p, q)
  {
  }

  lemma UniversalStep(c: char, rest: string, q: string)
    requires rest != ""
    requires Universal(Behind(c, rest) + q)
          == Universal(Behind(c, rest)) + Universal(if SplitsLineEnd(Behind(c, rest), q) then q[1..] else q)
    ensures Universal([c] + (rest + q))
         == Universal([c] + rest) + Universal(if SplitsLineEnd([c] + rest, q) then q[1..] else q)
  {
    UniversalCons(c, rest);
    UniversalCons(c, rest + q);
    BehindConcat(c, rest, q);
  }

  lemma UniversalLast(c: char, q: string)
    ensures Universal([c] + q) == Universal([c]) + Universal(if SplitsLineEnd([c], q) then q[1..] else q)
  {
    UniversalCons(c, q);
    UniversalCons(c, "");
    assert [c] + "" == [c];
  }

  lemma {:induction false} UniversalConcat(p: string, q: string)
    ensures Universal(p + q) == Universal(p) + Universal(if SplitsLineEnd(p, q) then q[1..] else q)
    decreases |p|
  {
    if p == "" {
      assert p + q == q;
    } else if |p| == 1 {
      assert p == [p[0]];
      UniversalLast(p[0], q);
    } else {
      UniversalConcat(Behind(p[0], p[1..]), q);
      UniversalStep(p[0], p[1..], q);
      assert p == [p[0]] + p[1..] && p + q == [p[0]] + (p[1..] + q);
    }
  }

  lemma {:induction false} UniversalEnd(p: string)
    requires p != "" && p[|p| - 1] == '\r'
    ensures Universal(p) != "" && Universal(p)[|Universal(p)| - 1] == '\n'
  {
    UniversalConcat(p[..|p| - 1], "\r");
    assert p == p[..|p| - 1] + "\r" && Universal("\r") == "\n";
  }

  lemma {:induction false} NoReturn(a: string)
    requires '\r' !in a
    ensures Universal(a) == a
  {
    if a != "" {
      NoReturn(a[1..]);
    }
  }

  /** Each of the two other line ends is read as a newline, and nothing else changes. */
  lemma LineEndsSpelled(a: string, b: string)
    requires '\r' !in a
    ensures Universal(a) == a
    ensures Universal(a + ("\r\n" + b)) == a + ("\n" + Universal(b))
    ensures b == "" || b[0] != '\n' ==> Universal(a + ("\r" + b)) == a + ("\n" + Universal(b))
  {
    NoReturn(a);
    UniversalConcat(a, "\r\n" + b);
    UniversalConcat(a, "\r" + b);
    UniversalCons('\r', "\n" + b);
    UniversalCons('\r', b);
    assert ['\r'] + ("\n" + b) == "\r\n" + b && ['\r'] + b == "\r" + b;
    assert ("\n" + b)[1..] == b;
  }

  /** The tailer makes the same of both texts. */
  predicate Alike(s: string, t: string) {
    Handed(s) == Handed(t) && Remainder(s) == Remainder(t)
  }

  lemma AlikeConcat(s: string, t: string, more: string)
    requires Alike(s, t)
    ensures Alike(s + more, t + more)
  {
    TwoPieces(s, more);
    TwoPieces(t, more);
    NonBlankConcat(RawLines(s), RawLines(Remainder(s) + more));
    NonBlankConcat(RawLines(t), RawLines(Remainder(t) + more));
  }

  lemma LastOf(lines: string, rest: string)
    ensures rest != "" ==> (lines + rest)[|lines + rest| - 1] in rest
  {
    assert rest != "" ==> (lines + rest)[|lines + rest| - 1] == rest[|rest| - 1];
  }

  lemma EndsALine(s: string)
    requires s != "" && s[|s| - 1] == '\n'
    ensures Remainder(s) == ""
  {
    TextIsLines(s);
    LastOf(Unlines(RawLines(s)), Remainder(s));
  }

  /** An empty line more is skipped. */
  lemma EmptyLineSkipped(s: string, rest: string)
    requires s != "" && s[|s| - 1] == '\n'
    ensures Alike(s + (['\n'] + rest), s + rest)
  {
    EndsALine(s);
    TwoPieces(s, rest);
    TwoPieces(s, ['\n'] + rest);
    assert "" + rest == rest && "" + (['\n'] + rest) == ['\n'] + rest;
    FirstLine(['\n'] + rest, "", rest);
    assert ([""] + RawLines(rest))[1..] == RawLines(rest);
    NonBlankConcat(RawLines(s), RawLines(rest));
    NonBlankConcat(RawLines(s), RawLines(['\n'] + rest));
  }

  lemma ReadsAlike(p: string, q: string)
    ensures Alike(Universal(p) + Universal(q), Universal(p + q))
  {
    UniversalConcat(p, q);
    if SplitsLineEnd(p, q) {
      UniversalEnd(p);
      EmptyLineSkipped(Universal(p), Universal(q[1..]));
    }
  }

  // ---- the tailer on bytes -------------------------------------------------

  function Reads(pieces: seq<Octets>): (chunks: seq<string>)
    ensures |chunks| == |pieces|
  {
    if pieces == [] then []
    else Reads(pieces[..|pieces| - 1]) + [Universal(Lenient(pieces[|pieces| - 1]))]
  }

  lemma {:induction false} WholeIsAlike(text: string, pieces: seq<Octets>)
    requires Concat(pieces) == Utf8(text) && CutBetweenCharacters(pieces)
    ensures Alike(Whole(Reads(pieces)), Universal(text))
    decreases |pieces|
  {
    if pieces == [] {
      Utf8RoundTrip(text);
    } else {
      var n := |pieces| - 1;
      var p, q := CutText(text, Concat(pieces[..n]), pieces[n]);
      assert CutBetweenCharacters(pieces[..n]);
      WholeIsAlike(p, pieces[..n]);
      LenientRoundTrip(q);
      assert Reads(pieces)[..n] == Reads(pieces[..n]);
      AlikeConcat(Whole(Reads(pieces[..n])), Universal(p), Universal(q));
      ReadsAlike(p, q);
    }
  }

  /**
   * However the bytes of a text are cut between characters, even inside "\r\n", what
   * is sent is what the complete lines of the text say.
   */
  lemma ReadsIndependence(text: string, pieces: seq<Octets>, parse: Parser, cycle: string, customer: string)
    requires Concat(pieces) == Utf8(text) && CutBetweenCharacters(pieces)
    ensures var t := FedAll(Reads(pieces), parse, cycle, customer);
            var lines := Handed(Universal(text));
            t.sent == Sent(lines, parse, cycle, customer) && t.crashed == Fatal(lines, parse) &&
            (!t.crashed ==> t.buf == Remainder(Universal(text)))
  {
    ChunkingIndependence(Reads(pieces), parse, cycle, customer);
    WholeIsAlike(text, pieces);
  }
}
