// src/audit_pipeline/customers.py, the HMAC-signed URL tokens:
// `<expires_at>.<unpadded base64url of the tag>`.
module UrlToken {
  import opened Bytes
  import opened Text
  import Base64

  /** HMAC-SHA-256 of a key and a message. */
  type Mac = (Octets, Octets) -> Digest

  datatype TokenError = BadKeyLength

  const INFO_PREFIX := "jelleo-customer-url-hmac-v1"
  const COLON: Octets := [0x3A]
  const NO_SALT: Octets := seq(32, _ => 0)

  function Info(customer: string, salt: Octets): Octets {
    Utf8(INFO_PREFIX + (":" + customer)) + if salt == [] then [] else COLON + salt
  }

  /** The extract step of section 2.2 of RFC 5869. */
  function Extracted(mac: Mac, platform: Octets, salt: Octets): Digest {
    mac(if salt == [] then NO_SALT else salt, platform)
  }

  /** `_hmac_url_key`: the 32 bytes asked for are one block of the expand step of section 2.3. */
  function UrlKey(mac: Mac, platform: Octets, customer: string, salt: Octets): Digest {
    mac(Extracted(mac, platform, salt), Info(customer, salt) + [1])
  }

  function Message(customer: string, expiry: int): Octets {
    Utf8(customer + ("|" + DecimalInt(expiry)))
  }

  function Tag(mac: Mac, platform: Octets, customer: string, salt: Octets, expiry: int): Digest {
    mac(UrlKey(mac, platform, customer, salt), Message(customer, expiry))
  }

  function Issue(mac: Mac, platform: Octets, customer: string, expiry: int, salt: Octets): Result<string, TokenError> {
    if |platform| != 32 then Err(BadKeyLength)
    else Ok(DecimalInt(expiry) + ("." + Base64.Unpadded(Tag(mac, platform, customer, salt, expiry))))
  }

  /** The token as text and bytes: HKDF and HMAC spelled out. */
  lemma TokenSpelled(mac: Mac, platform: Octets, customer: string, expiry: int, salt: Octets)
    requires |platform| == 32
    ensures var extracted := mac(if salt == [] then seq<byte>(32, _ => 0) else salt, platform);
            var info := Utf8("jelleo-customer-url-hmac-v1" + (":" + customer)) + if salt == [] then [] else [58] + salt;
            var tag := mac(mac(extracted, info + [1]), Utf8(customer + ("|" + DecimalInt(expiry))));
            Issue(mac, platform, customer, expiry, salt) == Ok(DecimalInt(expiry) + ("." + Base64.Unpadded(tag)))
  {
  }

  // ---- reading a token -----------------------------------------------------

  /** str.split(".", 1) when it gives two parts. */
  function SplitDot(s: string): Option<(string, string)> {
    if s == "" then None
    else if s[0] == '.' then Some(("", s[1..]))
    else
      match SplitDot(s[1..])
      case None => None
      case Some((a, b)) => Some(([s[0]] + a, b))
  }

  /** Digits, with single underscores between them. */
  predicate IsIntegerText(s: string) {
    s != "" && IsDigit(s[0]) && IsDigit(s[|s| - 1]) &&
    forall i :: 0 <= i < |s| ==> IsDigit(s[i]) || (s[i] == '_' && i > 0 && s[i - 1] != '_')
  }

  function DigitsOf(s: string): (r: string)
    ensures AllDigits(r)
  {
    if s == "" then "" else (if IsDigit(s[0]) then [s[0]] else "") + DigitsOf(s[1..])
  }

  function ParseDigits(s: string): Option<int> {
    if IsIntegerText(s) then Some(DigitsValue(DigitsOf(s))) else None
  }

  function Negated(r: Option<int>): Option<int> {
    match r
    case None => None
    case Some(n) => Some(-n)
  }

  function ParseSigned(s: string): Option<int> {
    if s == "" then None
    else if s[0] == '-' then Negated(ParseDigits(s[1..]))
    else if s[0] == '+' then ParseDigits(s[1..])
    else ParseDigits(s)
  }

  /** int(s) on ASCII digits; None is ValueError. */
  function ParseInt(s: string): Option<int> {
    ParseSigned(Strip(s))
  }

  /** The expiry and the tag a token carries; None when verification answers no. */
  function ReadToken(token: string): Option<(int, Octets)> {
    match SplitDot(token)
    case None => None
    case Some((expiryText, signature)) =>
      match ParseInt(expiryText)
      case None => None
      case Some(expiry) =>
        match Base64.Decode(Base64.Repad(signature))
        case None => None
        case Some(tag) => Some((expiry, tag))
  }

  function Verify(mac: Mac, platform: Octets, customer: string, token: string, salt: Octets,
                  now: int): Result<bool, TokenError> {
    match SplitDot(token)
    case None => Ok(false)
    case Some((expiryText, signature)) =>
      match ParseInt(expiryText)
      case None => Ok(false)
      case Some(expiry) =>
        if expiry < now then Ok(false)
        else if |platform| != 32 then Err(BadKeyLength)
        else
          match Base64.Decode(Base64.Repad(signature))
          case None => Ok(false)
          case Some(provided) => Ok(provided == Tag(mac, platform, customer, salt, expiry))
  }

  lemma VerifyAnswers(mac: Mac, platform: Octets, customer: string, token: string, salt: Octets, now: int)
    ensures |platform| == 32 ==> Verify(mac, platform, customer, token, salt, now).Ok?
  {
  }

  lemma VerifyReads(mac: Mac, platform: Octets, customer: string, token: string, salt: Octets, now: int)
    ensures Verify(mac, platform, customer, token, salt, now) == Ok(true) <==>
            |platform| == 32 && ReadToken(token).Some? &&
            ReadToken(token).value.0 >= now &&
            ReadToken(token).value.1 == Tag(mac, platform, customer, salt, ReadToken(token).value.0)
  {
  }

  // ---- an issued token is read back ----------------------------------------

  lemma {:induction false} SplitAtFirst(a: string, b: string)
    requires '.' !in a
    ensures SplitDot(a + ("." + b)) == Some((a, b))
  {
    if a == "" {
      assert a + ("." + b) == "." + b;
    } else {
      assert (a + ("." + b))[1..] == a[1..] + ("." + b);
      SplitAtFirst(a[1..], b);
      assert a == [a[0]] + a[1..];
    }
  }

  lemma {:induction false} DigitsOfDigits(s: string)
    requires AllDigits(s)
    ensures DigitsOf(s) == s
  {
    if s != "" {
      DigitsOfDigits(s[1..]);
      assert s == [s[0]] + s[1..];
    }
  }

  lemma NothingToStrip(s: string)
    requires s != "" && !IsSpace(s[0]) && !IsSpace(s[|s| - 1])
    ensures Strip(s) == s
  {
  }

  lemma DigitsAreParsed(body: string)
    requires body != "" && AllDigits(body)
    ensures ParseDigits(body) == Some(DigitsValue(body))
  {
    DigitsOfDigits(body);
    assert IsIntegerText(body);
  }

  lemma DecimalIntIsStripped(n: int)
    ensures Strip(DecimalInt(n)) == DecimalInt(n)
  {
    var body := if n < 0 then Decimal(-n) else Decimal(n);
    assert IsDigit(body[0]) && IsDigit(body[|body| - 1]);
    NothingToStrip(DecimalInt(n));
  }

  lemma ParseDecimalInt(n: int)
    ensures ParseInt(DecimalInt(n)) == Some(n)
  {
    DecimalIntIsStripped(n);
    var m := if n < 0 then -n else n;
    var body := Decimal(m);
    DigitsAreParsed(body);
    DecimalValue(m);
    assert ("-" + body)[1..] == body;
    assert IsDigit(body[0]);
  }

  lemma DecimalIntPlain(n: int)
    ensures '.' !in DecimalInt(n) && '|' !in DecimalInt(n)
  {
    var body := if n < 0 then Decimal(-n) else Decimal(n);
    assert forall i :: 0 <= i < |body| ==> IsDigit(body[i]);
  }

  lemma IssuedIsRead(mac: Mac, platform: Octets, customer: string, expiry: int, salt: Octets)
    requires |platform| == 32
    ensures ReadToken(Issue(mac, platform, customer, expiry, salt).value) ==
            Some((expiry, Tag(mac, platform, customer, salt, expiry)))
  {
    var tag := Tag(mac, platform, customer, salt, expiry);
    DecimalIntPlain(expiry);
    SplitAtFirst(DecimalInt(expiry), Base64.Unpadded(tag));
    ParseDecimalInt(expiry);
    Base64.UnpaddedRoundTrip(tag);
  }

  /** An issued token verifies with the same key, customer and salt exactly until it expires. */
  lemma IssuedVerifiesIffUnexpired(mac: Mac, platform: Octets, customer: string, expiry: int, salt: Octets, now: int)
    requires |platform| == 32
    ensures Verify(mac, platform, customer, Issue(mac, platform, customer, expiry, salt).value, salt, now)
         == Ok(now <= expiry)
  {
    IssuedIsRead(mac, platform, customer, expiry, salt);
  }

  // ---- binding -------------------------------------------------------------

  datatype Query = Query(key: Octets, msg: Octets)

  /** The two HMACs that make a tag from the extracted key; both keys are digests. */
  function Queries(mac: Mac, platform: Octets, customer: string, salt: Octets, expiry: int): seq<Query> {
    [Query(Extracted(mac, platform, salt), Info(customer, salt) + [1]),
     Query(UrlKey(mac, platform, customer, salt), Message(customer, expiry))]
  }

  /** Two different HMAC inputs, one of each list, with the same output. */
  ghost predicate MacCollision(mac: Mac, xs: seq<Query>, ys: seq<Query>) {
    exists i, j :: 0 <= i < |xs| && 0 <= j < |ys| && xs[i] != ys[j] &&
      mac(xs[i].key, xs[i].msg) == mac(ys[j].key, ys[j].msg)
  }

  /** Where the last bar is. */
  function LastBar(s: string): nat {
    if s == "" then 0 else if s[|s| - 1] == '|' then |s| - 1 else LastBar(s[..|s| - 1])
  }

  lemma {:induction false} LastBarOf(a: string, b: string)
    requires '|' !in b
    ensures LastBar(a + ("|" + b)) == |a|
    decreases |b|
  {
    if b == "" {
      assert a + ("|" + b) == a + "|";
    } else {
      var n := |b| - 1;
      assert (a + ("|" + b))[..|a| + 1 + n] == a + ("|" + b[..n]);
      LastBarOf(a, b[..n]);
    }
  }

  lemma SplitAtLast(a: string, b: string, c: string, d: string)
    requires a + ("|" + b) == c + ("|" + d) && '|' !in b && '|' !in d
    ensures a == c && b == d
  {
    LastBarOf(a, b);
    LastBarOf(c, d);
    var s := a + ("|" + b);
    assert a == s[..|a|] == c && b == s[|a| + 1..] == d;
  }

  /** `customer|expiry` says which customer and which expiry, whatever the id contains. */
  lemma MessageInjective(c1: string, e1: int, c2: string, e2: int)
    requires Message(c1, e1) == Message(c2, e2)
    ensures c1 == c2 && e1 == e2
  {
    Utf8Injective(c1 + ("|" + DecimalInt(e1)), c2 + ("|" + DecimalInt(e2)));
    DecimalIntPlain(e1);
    DecimalIntPlain(e2);
    SplitAtLast(c1, DecimalInt(e1), c2, DecimalInt(e2));
    DecimalIntInjective(e1, e2);
  }

  lemma InfoHoldsTheSalt(customer: string, s1: Octets, s2: Octets)
    requires Info(customer, s1) + [1] == Info(customer, s2) + [1]
    ensures s1 == s2
  {
    var i1, i2 := Info(customer, s1), Info(customer, s2);
    assert i1 == (i1 + [1])[..|i1|] && i2 == (i2 + [1])[..|i2|];
    var head := Utf8(INFO_PREFIX + (":" + customer));
    var t1, t2 := i1[|head|..], i2[|head|..];
    assert t1 == if s1 == [] then [] else COLON + s1;
    assert t2 == if s2 == [] then [] else COLON + s2;
    assert s1 != [] ==> t1[1..] == s1;
    assert s2 != [] ==> t2[1..] == s2;
  }

  /** Equal tags are for the same customer, salt and expiry, or HMAC collides. */
  lemma TagsBind(mac: Mac, platform: Octets, c1: string, s1: Octets, e1: int, c2: string, s2: Octets, e2: int)
    requires Tag(mac, platform, c1, s1, e1) == Tag(mac, platform, c2, s2, e2)
    ensures (c1 == c2 && s1 == s2 && e1 == e2) ||
            MacCollision(mac, Queries(mac, platform, c1, s1, e1), Queries(mac, platform, c2, s2, e2))
  {
    var xs, ys := Queries(mac, platform, c1, s1, e1), Queries(mac, platform, c2, s2, e2);
    if !MacCollision(mac, xs, ys) {
      assert mac(xs[1].key, xs[1].msg) == mac(ys[1].key, ys[1].msg);
      MessageInjective(c1, e1, c2, e2);
      assert mac(xs[0].key, xs[0].msg) == mac(ys[0].key, ys[0].msg);
      InfoHoldsTheSalt(c1, s1, s2);
    }
  }

  /** A token issued for one customer and salt is accepted for no other, or HMAC collides. */
  lemma TokenIsBound(mac: Mac, platform: Octets, c1: string, s1: Octets, expiry: int, c2: string, s2: Octets, now: int)
    requires |platform| == 32
    requires Verify(mac, platform, c2, Issue(mac, platform, c1, expiry, s1).value, s2, now) == Ok(true)
    ensures now <= expiry
    ensures (c1 == c2 && s1 == s2) ||
            MacCollision(mac, Queries(mac, platform, c1, s1, expiry), Queries(mac, platform, c2, s2, expiry))
  {
    IssuedIsRead(mac, platform, c1, expiry, s1);
    VerifyReads(mac, platform, c2, Issue(mac, platform, c1, expiry, s1).value, s2, now);
    TagsBind(mac, platform, c1, s1, expiry, c2, s2, expiry);
  }

  /** Another salt revokes a token, or HMAC collides. */
  lemma OtherSaltIsRefused(mac: Mac, platform: Octets, customer: string, s1: Octets, s2: Octets, expiry: int, now: int)
    requires |platform| == 32 && s1 != s2
    ensures Verify(mac, platform, customer, Issue(mac, platform, customer, expiry, s1).value, s2, now) == Ok(false) ||
            MacCollision(mac, Queries(mac, platform, customer, s1, expiry),
                         Queries(mac, platform, customer, s2, expiry))
  {
    var token := Issue(mac, platform, customer, expiry, s1).value;
    VerifyAnswers(mac, platform, customer, token, s2, now);
    if Verify(mac, platform, customer, token, s2, now) == Ok(true) {
      TokenIsBound(mac, platform, customer, s1, expiry, customer, s2, now);
    }
  }

  /** No two accepted texts share a tag unless they say the same, so an expiry cannot be moved. */
  lemma AcceptedTagsAgree(mac: Mac, platform: Octets, c1: string, s1: Octets, t1: string, now1: int,
                          c2: string, s2: Octets, t2: string, now2: int)
    requires Verify(mac, platform, c1, t1, s1, now1) == Ok(true) && Verify(mac, platform, c2, t2, s2, now2) == Ok(true)
    ensures ReadToken(t1).Some? && ReadToken(t2).Some?
    ensures var r1, r2 := ReadToken(t1).value, ReadToken(t2).value;
            r1.1 == r2.1 ==>
              (c1 == c2 && s1 == s2 && r1.0 == r2.0) ||
              MacCollision(mac, Queries(mac, platform, c1, s1, r1.0), Queries(mac, platform, c2, s2, r2.0))
  {
    VerifyReads(mac, platform, c1, t1, s1, now1);
    VerifyReads(mac, platform, c2, t2, s2, now2);
    var r1, r2 := ReadToken(t1).value, ReadToken(t2).value;
    if r1.1 == r2.1 {
      TagsBind(mac, platform, c1, s1, r1.0, c2, s2, r2.0);
    }
  }
}
