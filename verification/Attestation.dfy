// src/audit_pipeline/attestation_client.py: the arguments of publish_attestation
// and the bytes of the instruction that carries them.
module Attestation {
  import opened Bytes
  import opened Text
  import opened Merkle
  import opened CanonicalRow
  import opened CycleRoot

  const MAX_CYCLE_ID_LEN := 32
  const MAX_ENGINE_SHA_LEN := 64

  datatype AttestationError =
    | ProtocolLength
    | RootLength
    | CycleIdEmpty
    | EngineShaEmpty
    | CycleIdTooLong
    | EngineShaTooLong
    | CountOutOfRange
    | RootHexLength
    | RootNotHex

  datatype PublishArgs = PublishArgs(
    protocol: Octets, cycleId: string, engineSha: string, invariantCount: int, merkleRoot: Octets)

  /** validate(): the first check that fails, in the order they are made. */
  function Validate(a: PublishArgs): Option<AttestationError> {
    if |a.protocol| != 32 then Some(ProtocolLength)
    else if |a.merkleRoot| != 32 then Some(RootLength)
    else if a.cycleId == "" then Some(CycleIdEmpty)
    else if a.engineSha == "" then Some(EngineShaEmpty)
    else if |Utf8(a.cycleId)| > MAX_CYCLE_ID_LEN then Some(CycleIdTooLong)
    else if |Utf8(a.engineSha)| > MAX_ENGINE_SHA_LEN then Some(EngineShaTooLong)
    else if !(0 <= a.invariantCount < 0x1_0000_0000) then Some(CountOutOfRange)
    else None
  }

  // ---- cutting byte strings ------------------------------------------------

  lemma Cut(a: Octets, b: Octets)
    ensures (a + b)[..|a|] == a && (a + b)[|a|..] == b
  {
  }

  lemma Rejoin(bs: Octets, k: nat)
    requires k <= |bs|
    ensures bs[..k] + bs[k..] == bs
  {
  }

  predicate EndsWith(bs: Octets, end: Octets) {
    |end| <= |bs| && bs[|bs| - |end|..] == end
  }

  lemma EndKept(a: Octets, b: Octets, end: Octets)
    requires EndsWith(b, end)
    ensures EndsWith(a + b, end)
  {
  }

  // ---- Borsh encoding ------------------------------------------------------

  /** struct.pack("<I", n) */
  function U32(n: nat): (bs: Octets)
    requires n < 0x1_0000_0000
    ensures |bs| == 4
  {
    [n % 256, n / 256 % 256, n / 256 / 256 % 256, n / 256 / 256 / 256]
  }

  function ReadU32(bs: Octets): (n: nat)
    requires |bs| >= 4
    ensures n < 0x1_0000_0000
  {
    Join(bs[0], Join(bs[1], Join(bs[2], bs[3])))
  }

  /** A low byte below a number. */
  function Join(low: byte, high: nat): (n: nat)
    ensures n % 256 == low && n / 256 == high
  {
    (low as int) + 256 * high
  }

  lemma U32RoundTrip(n: nat, rest: Octets)
    requires n < 0x1_0000_0000
    ensures ReadU32(U32(n) + rest) == n
  {
    var bs := U32(n) + rest;
    assert bs[0] == n % 256 && bs[1] == n / 256 % 256;
    assert bs[2] == n / 256 / 256 % 256 && bs[3] == n / 256 / 256 / 256;
  }

  lemma U32Canonical(bs: Octets)
    requires |bs| == 4
    ensures U32(ReadU32(bs)) == bs
  {
    assert bs == [bs[0], bs[1], bs[2], bs[3]];
  }

  /** _borsh_string */
  function BorshString(s: string): (bs: Octets)
    requires |Utf8(s)| < 0x1_0000_0000
    ensures |bs| == 4 + |Utf8(s)|
  {
    U32(|Utf8(s)|) + Utf8(s)
  }

  /** A length-prefixed string at the front, and the bytes after it. */
  function ReadBorshString(bs: Octets): (r: Option<(string, Octets)>) {
    if |bs| < 4 then None
    else
      var n := ReadU32(bs);
      var body := bs[4..];
      if |body| < n then None
      else
        match FromUtf8(body[..n])
        case None => None
        case Some(s) => Some((s, body[n..]))
  }

  lemma BorshRoundTrip(s: string, rest: Octets)
    requires |Utf8(s)| < 0x1_0000_0000
    ensures ReadBorshString(BorshString(s) + rest) == Some((s, rest))
  {
    var u := Utf8(s);
    assert BorshString(s) + rest == U32(|u|) + (u + rest);
    U32RoundTrip(|u|, u + rest);
    Cut(U32(|u|), u + rest);
    Cut(u, rest);
    Utf8RoundTrip(s);
  }

  lemma BorshCanonical(bs: Octets)
    requires ReadBorshString(bs).Some?
    ensures var (s, rest) := ReadBorshString(bs).value;
            |Utf8(s)| < 0x1_0000_0000 && BorshString(s) + rest == bs
  {
    var n := ReadU32(bs);
    var body := bs[4..];
    var (s, rest) := ReadBorshString(bs).value;
    assert ReadU32(bs[..4]) == n;
    U32Canonical(bs[..4]);
    Rejoin(bs, 4);
    Rejoin(body, n);
    assert BorshString(s) + rest == bs[..4] + (body[..n] + body[n..]);
  }

  // ---- the instruction -----------------------------------------------------

  /** anchor_discriminator */
  function AnchorDiscriminator(h: Hash, name: string): (d: Octets)
    ensures |d| == 8
  {
    h(Utf8("global:" + name))[..8]
  }

  function Discriminator(h: Hash): (d: Octets)
    ensures |d| == 8
  {
    AnchorDiscriminator(h, "publish_attestation")
  }

  function Arguments(a: PublishArgs): Octets
    requires Validate(a).None?
  {
    BorshString(a.cycleId) + (BorshString(a.engineSha) + (U32(a.invariantCount) + a.merkleRoot))
  }

  /** instruction_data */
  function InstructionData(h: Hash, a: PublishArgs): Result<Octets, AttestationError> {
    match Validate(a)
    case Some(e) => Err(e)
    case None =>
      Ok(Discriminator(h) + (a.protocol + Arguments(a)))
  }

  /** What the program reads after the discriminator and the protocol. */
  function ReadArguments(protocol: Octets, bs: Octets): Option<PublishArgs> {
    match ReadBorshString(bs)
    case None => None
    case Some((cycleId, rest)) =>
      match ReadBorshString(rest)
      case None => None
      case Some((engineSha, tail)) =>
        if |tail| != 36 then None
        else Some(PublishArgs(protocol, cycleId, engineSha, ReadU32(tail), tail[4..]))
  }

  function ReadInstruction(h: Hash, data: Octets): Option<PublishArgs> {
    if |data| < 8 || data[..8] != Discriminator(h) then None
    else
      var rest := data[8..];
      if |rest| < 32 then None else ReadArguments(rest[..32], rest[32..])
  }

  lemma ArgumentsRoundTrip(a: PublishArgs)
    requires Validate(a).None?
    ensures ReadArguments(a.protocol, Arguments(a)) == Some(a)
  {
    var tail := U32(a.invariantCount) + a.merkleRoot;
    BorshRoundTrip(a.cycleId, BorshString(a.engineSha) + tail);
    BorshRoundTrip(a.engineSha, tail);
    U32RoundTrip(a.invariantCount, a.merkleRoot);
    Cut(U32(a.invariantCount), a.merkleRoot);
  }

  lemma ArgumentsCanonical(protocol: Octets, bs: Octets)
    requires ReadArguments(protocol, bs).Some? && Validate(ReadArguments(protocol, bs).value).None?
    ensures Arguments(ReadArguments(protocol, bs).value) == bs
  {
    var (_, rest) := ReadBorshString(bs).value;
    var (_, tail) := ReadBorshString(rest).value;
    BorshCanonical(bs);
    BorshCanonical(rest);
    assert ReadU32(tail[..4]) == ReadU32(tail);
    U32Canonical(tail[..4]);
    Rejoin(tail, 4);
  }

  lemma InstructionRoundTrip(h: Hash, a: PublishArgs)
    requires Validate(a).None?
    ensures InstructionData(h, a).Ok?
    ensures ReadInstruction(h, InstructionData(h, a).value) == Some(a)
  {
    Cut(Discriminator(h), a.protocol + Arguments(a));
    Cut(a.protocol, Arguments(a));
    ArgumentsRoundTrip(a);
  }

  lemma InstructionCanonical(h: Hash, data: Octets)
    requires ReadInstruction(h, data).Some? && Validate(ReadInstruction(h, data).value).None?
    ensures InstructionData(h, ReadInstruction(h, data).value) == Ok(data)
  {
    ArgumentsCanonical(data[8..][..32], data[8..][32..]);
    Rejoin(data, 8);
    Rejoin(data[8..], 32);
  }

  /** Arguments that pass validation are recovered from their instruction, and from no other. */
  lemma InstructionDecodesIff(h: Hash, a: PublishArgs, data: Octets)
    requires Validate(a).None?
    ensures InstructionData(h, a) == Ok(data) <==> ReadInstruction(h, data) == Some(a)
  {
    InstructionRoundTrip(h, a);
    if ReadInstruction(h, data) == Some(a) {
      InstructionCanonical(h, data);
    }
  }

  lemma Utf8NonEmpty(s: string)
    requires s != ""
    ensures Utf8(s) != []
  {
  }

  lemma ArgumentsShape(a: PublishArgs)
    requires Validate(a).None?
    ensures |Arguments(a)| == 44 + |Utf8(a.cycleId)| + |Utf8(a.engineSha)|
    ensures EndsWith(Arguments(a), a.merkleRoot)
  {
    var tail := U32(a.invariantCount) + a.merkleRoot;
    EndKept(U32(a.invariantCount), a.merkleRoot, a.merkleRoot);
    EndKept(BorshString(a.engineSha), tail, a.merkleRoot);
    EndKept(BorshString(a.cycleId), BorshString(a.engineSha) + tail, a.merkleRoot);
  }

  lemma InstructionShape(h: Hash, a: PublishArgs)
    requires InstructionData(h, a).Ok?
    ensures var data := InstructionData(h, a).value;
            |data| == 84 + |Utf8(a.cycleId)| + |Utf8(a.engineSha)| && 84 < |data| <= 180 &&
            EndsWith(data, a.merkleRoot)
  {
    Utf8NonEmpty(a.cycleId);
    ArgumentsShape(a);
    EndKept(a.protocol, Arguments(a), a.merkleRoot);
    EndKept(Discriminator(h), a.protocol + Arguments(a), a.merkleRoot);
  }

  /** The four bytes of a number below 2^32, the lowest first. */
  predicate IsLittleEndian(bs: Octets, n: int) {
    |bs| == 4 && n == bs[0] as int + 256 * bs[1] as int + 65_536 * bs[2] as int + 16_777_216 * bs[3] as int
  }

  lemma U32IsLittleEndian(n: nat)
    requires n < 0x1_0000_0000
    ensures IsLittleEndian(U32(n), n)
  {
  }

  /** Which arguments are accepted. */
  lemma AcceptedIff(a: PublishArgs)
    ensures Validate(a).None? <==>
            |a.protocol| == 32 && |a.merkleRoot| == 32 && 1 <= |Utf8(a.cycleId)| <= 32 &&
            1 <= |Utf8(a.engineSha)| <= 64 && 0 <= a.invariantCount <= 4_294_967_295
  {
    if a.cycleId != "" && a.engineSha != "" {
      Utf8NonEmpty(a.cycleId);
      Utf8NonEmpty(a.engineSha);
    }
  }

  /** The instruction byte by byte: discriminator, protocol, two counted strings, the count and the root. */
  lemma InstructionInBytes(h: Hash, a: PublishArgs) returns (n: Octets, m: Octets, k: Octets)
    requires Validate(a).None?
    ensures IsLittleEndian(n, |Utf8(a.cycleId)|) && IsLittleEndian(m, |Utf8(a.engineSha)|)
    ensures IsLittleEndian(k, a.invariantCount)
    ensures InstructionData(h, a) ==
            Ok(h(Utf8("global:publish_attestation"))[..8] + a.protocol + n + Utf8(a.cycleId) +
               m + Utf8(a.engineSha) + k + a.merkleRoot)
  {
    n, m, k := U32(|Utf8(a.cycleId)|), U32(|Utf8(a.engineSha)|), U32(a.invariantCount);
    U32IsLittleEndian(|Utf8(a.cycleId)|);
    U32IsLittleEndian(|Utf8(a.engineSha)|);
    U32IsLittleEndian(a.invariantCount);
    assert "global:" + "publish_attestation" == "global:publish_attestation";
    EightParts(Discriminator(h), a.protocol, n, Utf8(a.cycleId), m, Utf8(a.engineSha), k, a.merkleRoot);
  }

  lemma EightParts(a: Octets, b: Octets, c: Octets, d: Octets, e: Octets, f: Octets, g: Octets, i: Octets)
    ensures a + (b + ((c + d) + ((e + f) + (g + i)))) == a + b + c + d + e + f + g + i
  {
  }

  // ---- from the cycle root to the chain ------------------------------------

  /** _merkle_root_hex_to_bytes; the length is checked again after decoding. */
  function RootHexToBytes(rootHex: string): (r: Result<Octets, AttestationError>)
    ensures r.Ok? ==> |r.value| == 32 && FromHex(rootHex) == Some(r.value)
  {
    if |rootHex| != 64 then Err(RootHexLength)
    else
      match FromHex(rootHex)
      case None => Err(RootNotHex)
      case Some(bs) => if |bs| != 32 then Err(RootNotHex) else Ok(bs)
  }

  /** What is accepted are the 64 digits of 32 bytes, in either letter case, and they are read as those bytes. */
  lemma RootHexIff(rootHex: string, root: Octets)
    ensures RootHexToBytes(rootHex) == Ok(root) <==> |root| == 32 && LowerHex(rootHex) == Hex(root)
  {
    if RootHexToBytes(rootHex) == Ok(root) {
      FromHexReads(rootHex);
    }
    if |root| == 32 && LowerHex(rootHex) == Hex(root) {
      FromLowerHex(rootHex, root);
    }
  }

  /** The instruction for a cycle ends with the root of that cycle's tree. */
  lemma PublishedRootIsTheCycleRoot(h: Hash, cycle: Row, findings: seq<Finding>, a: PublishArgs)
    requires RootHexToBytes(CycleMerkleRoot(h, V4(), cycle, findings)) == Ok(a.merkleRoot)
    requires InstructionData(h, a).Ok?
    ensures var data := InstructionData(h, a).value;
            EndsWith(data, Root(h, Leaves(h, Records(h, V4(), cycle, findings))))
  {
    HexRoundTrip(Root(h, Leaves(h, Records(h, V4(), cycle, findings))));
    InstructionShape(h, a);
  }

  lemma CycleRootIsAccepted(h: Hash, cycle: Row, findings: seq<Finding>)
    ensures RootHexToBytes(CycleMerkleRoot(h, V4(), cycle, findings)).Ok?
  {
    HexRoundTrip(Root(h, Leaves(h, Records(h, V4(), cycle, findings))));
  }
}
