// src/audit_pipeline/bundle/auth.py: the gate between a reviewed patch and an
// upstream pull request.
//
// A world is the bundle directories, the signing key state and the clock, in
// microseconds; markers hold whole seconds.  authorization.json is written by
// write_authorization alone, and an Ed25519 signature verifies for the marker it
// was made for and for no other.
module Authorization {
  import opened Bytes
  import opened Text

  const SECOND := 1_000_000
  const HOUR := 3600 * SECOND
  const MIN_TTL_HOURS := 1
  const MAX_TTL_HOURS := 168

  // ---- verification.json ---------------------------------------------------

  datatype Passed = Yes | No | Null | Other

  datatype Gate = Gate(passed: Passed, skipCode: Option<string>)

  datatype Verification = Verification(
    gates: map<string, Gate>, engineLang: Option<string>, effectiveKani: bool, effectiveLitesvm: bool)

  /** meta.json: whether it names a Kani harness and a LiteSVM test. */
  datatype Meta = Meta(kani: bool, litesvm: bool)

  /**
   * What is outside the model: the hash, the JSON reader, and the allow-list of
   * skip codes per gate name and engine language.
   */
  datatype Env = Env(
    h: Hash, parse: Octets -> Option<Verification>, acceptsSkip: (string, Option<string>, Option<string>) -> bool)

  function RequiredGates(): seq<string> {
    ["patch_well_formed", "poc_fails_pre_patch", "poc_passes_post_patch", "tests_pass_post_patch",
     "patch_unchanged_during_verify"]
  }

  predicate RequiredPassed(v: Verification) {
    forall name :: name in RequiredGates() ==> name in v.gates && v.gates[name].passed == Yes
  }

  /** all_passed */
  predicate AllPassed(env: Env, v: Verification) {
    forall name :: name in v.gates ==>
      v.gates[name].passed == Yes ||
      (v.gates[name].passed != No && env.acceptsSkip(name, v.gates[name].skipCode, v.engineLang))
  }

  /** A gate skipped because a tool is not registered, while one is. */
  predicate Crafted(v: Verification, meta: Meta) {
    exists name :: name in v.gates && v.gates[name].passed == Null &&
      ((v.gates[name].skipCode == Some("no_kani_harness_registered") && (v.effectiveKani || meta.kani)) ||
       (v.gates[name].skipCode == Some("no_litesvm_test_name_registered") && (v.effectiveLitesvm || meta.litesvm)))
  }

  // ---- files ---------------------------------------------------------------

  datatype Marker = Marker(
    findingId: int, engineSha: string, patchSha: string, authorizedAt: int, expiresAt: int,
    authorizer: string, verificationDigest: string, phrase: string)

  datatype Sidecar = Signed | Unsigned | Refused | Failed

  /** A bundle directory; `signature` is the marker authorization.json.sig was made for. */
  datatype Bundle = Bundle(
    patch: Option<Octets>, verification: Option<Octets>, meta: Meta,
    marker: Option<Marker>, sidecar: Option<Sidecar>, signature: Option<Marker>)

  datatype AuthError =
    | BadEngineSha | BadTtl | NoPatch | NoVerification | Unreadable | MissingGates | FailedGates | NotAllPassed
    | CraftedSkip | PhraseNotAscii | WrongPhrase
    | NoMarker | MalformedMarker | OtherFinding | EngineChanged | PatchChanged | VerificationChanged | Expired
    | BadSidecar | NotSigned | BadSignature

  predicate IsHex(s: string, n: nat) {
    |s| == n && AllHex(s)
  }

  predicate IsAscii(s: string) {
    forall i :: 0 <= i < |s| ==> s[i] as int < 128
  }

  function ExpectedPhrase(findingId: int, patchSha: string): string {
    "yes-authorize-finding-" + (DecimalInt(findingId) + ("-" + patchSha))
  }

  /** file_sha256: the empty string for a missing file. */
  function FileSha256(h: Hash, file: Option<Octets>): string {
    match file
    case None => ""
    case Some(bytes) => Hex(h(bytes))
  }

  // ---- write_authorization -------------------------------------------------

  /** The arguments of one call. */
  datatype Request = Request(findingId: int, engineSha: string, authorizer: string, typed: string, ttlHours: int)

  /** The checks on verification.json, in order. */
  function GateError(env: Env, b: Bundle): Option<AuthError>
    requires b.verification.Some?
  {
    match env.parse(b.verification.value)
    case None => Some(Unreadable)
    case Some(v) =>
      if exists name :: name in RequiredGates() && name !in v.gates then Some(MissingGates)
      else if !RequiredPassed(v) then Some(FailedGates)
      else if !AllPassed(env, v) then Some(NotAllPassed)
      else if Crafted(v, b.meta) then Some(CraftedSkip)
      else None
  }

  /** Everything that can refuse a request, in order. */
  function RequestError(env: Env, b: Bundle, r: Request): Option<AuthError> {
    if !IsHex(r.engineSha, 40) then Some(BadEngineSha)
    else if !(MIN_TTL_HOURS <= r.ttlHours <= MAX_TTL_HOURS) then Some(BadTtl)
    else if b.patch.None? then Some(NoPatch)
    else if b.verification.None? then Some(NoVerification)
    else if GateError(env, b).Some? then GateError(env, b)
    else if !IsAscii(Strip(r.typed)) then Some(PhraseNotAscii)
    else if Strip(r.typed) != ExpectedPhrase(r.findingId, FileSha256(env.h, b.patch)) then Some(WrongPhrase)
    else None
  }

  /** The marker a request that is not refused builds. */
  function MarkerFor(env: Env, b: Bundle, r: Request, now: int): Marker {
    Marker(r.findingId, r.engineSha, FileSha256(env.h, b.patch), now / SECOND, (now + r.ttlHours * HOUR) / SECOND,
           r.authorizer, FileSha256(env.h, b.verification), Strip(r.typed))
  }

  /** Where a crash stops the call, and what the signing block comes to when it does not. */
  datatype Fate =
    | CrashBeforeReplace
    | CrashAfterReplace
    | CrashAfterSign
    | SignedOk
    | NoKey
    | KeyRefused
    | SigningFailed
    | StatusLost

  predicate Replaces(f: Fate) {
    !f.CrashBeforeReplace?
  }

  predicate Signs(f: Fate) {
    f.SignedOk? || f.CrashAfterSign?
  }

  /** The bundle after a call that builds marker m. */
  function Marked(b: Bundle, m: Marker, fate: Fate): Bundle {
    if !Replaces(fate) then b
    else
      b.(marker := Some(m),
         signature := if Signs(fate) then Some(m) else b.signature,
         sidecar := match fate
                    case SignedOk => Some(Signed)
                    case NoKey => Some(Unsigned)
                    case KeyRefused => Some(Refused)
                    case SigningFailed => Some(Failed)
                    case _ => b.sidecar)
  }

  // ---- validate_authorization ----------------------------------------------

  function SidecarError(b: Bundle, m: Marker, allowUnsigned: bool, pubKeyUsable: bool): Option<AuthError> {
    match b.sidecar
    case None => if allowUnsigned then None else Some(NotSigned)
    case Some(Unsigned) => if allowUnsigned then None else Some(NotSigned)
    case Some(Signed) => if pubKeyUsable && b.signature == Some(m) then None else Some(BadSignature)
    case Some(_) => Some(BadSidecar)
  }

  function ValidationError(env: Env, b: Bundle, m: Marker, findingId: int, engineSha: string, now: int,
                           allowUnsigned: bool, pubKeyUsable: bool): Option<AuthError> {
    if !IsHex(m.engineSha, 40) || !IsHex(m.patchSha, 64) || !IsHex(m.verificationDigest, 64) then Some(MalformedMarker)
    else if m.findingId != findingId then Some(OtherFinding)
    else if !IsHex(engineSha, 40) then Some(BadEngineSha)
    else if m.engineSha != engineSha then Some(EngineChanged)
    else if m.patchSha != FileSha256(env.h, b.patch) then Some(PatchChanged)
    else if m.verificationDigest != FileSha256(env.h, b.verification) then Some(VerificationChanged)
    else if b.verification.None? || env.parse(b.verification.value).None? then Some(Unreadable)
    else if !AllPassed(env, env.parse(b.verification.value).value) then Some(NotAllPassed)
    else if now >= m.expiresAt * SECOND then Some(Expired)
    else SidecarError(b, m, allowUnsigned, pubKeyUsable)
  }

  /** validate_authorization: the marker, or why not. */
  function Validate(env: Env, b: Bundle, findingId: int, engineSha: string, now: int,
                    allowUnsigned: bool, pubKeyUsable: bool): Result<Marker, AuthError> {
    match b.marker
    case None => Err(NoMarker)
    case Some(m) =>
      match ValidationError(env, b, m, findingId, engineSha, now, allowUnsigned, pubKeyUsable)
      case Some(e) => Err(e)
      case None => Ok(m)
  }

  // ---- the directory that is updated in place ------------------------------

  class BundleDir {
    var patch: Option<Octets>
    var verification: Option<Octets>
    var meta: Meta
    var marker: Option<Marker>
    var sidecar: Option<Sidecar>
    var signature: Option<Marker>

    ghost function Contents(): Bundle
      reads this
    {
      Bundle(patch, verification, meta, marker, sidecar, signature)
    }

    method WriteAuthorization(env: Env, r: Request, now: int, fate: Fate) returns (result: Result<Marker, AuthError>)
      modifies this`marker, this`sidecar, this`signature
      ensures match RequestError(env, old(Contents()), r)
              case Some(e) => result == Err(e) && Contents() == old(Contents())
              case None =>
                result == Ok(MarkerFor(env, old(Contents()), r, now)) &&
                Contents() == Marked(old(Contents()), MarkerFor(env, old(Contents()), r, now), fate)
    {
      if !IsHex(r.engineSha, 40) {
        return Err(BadEngineSha);
      }
      if r.ttlHours < MIN_TTL_HOURS || r.ttlHours > MAX_TTL_HOURS {
        return Err(BadTtl);
      }
      if patch.None? {
        return Err(NoPatch);
      }
      if verification.None? {
        return Err(NoVerification);
      }
      var gates := GateError(env, Bundle(patch, verification, meta, marker, sidecar, signature));
      if gates.Some? {
        return Err(gates.value);
      }
      var patchSha := FileSha256(env.h, patch);
      if !IsAscii(Strip(r.typed)) {
        return Err(PhraseNotAscii);
      }
      if Strip(r.typed) != ExpectedPhrase(r.findingId, patchSha) {
        return Err(WrongPhrase);
      }
      var m := Marker(r.findingId, r.engineSha, patchSha, now / SECOND, (now + r.ttlHours * HOUR) / SECOND,
                      r.authorizer, FileSha256(env.h, verification), Strip(r.typed));
      result := Ok(m);
      if fate.CrashBeforeReplace? {
        return;
      }
      marker := Some(m);
      match fate {
        case CrashAfterSign => signature := Some(m);
        case SignedOk =>
          signature := Some(m);
          sidecar := Some(Signed);
        case NoKey => sidecar := Some(Unsigned);
        case KeyRefused => sidecar := Some(Refused);
        case SigningFailed => sidecar := Some(Failed);
        case _ =>
      }
    }
  }

  // ---- runs ----------------------------------------------------------------

  datatype World = World(bundles: map<int, Bundle>, clock: int)

  datatype Event =
    | EditPatch(findingId: int, patch: Option<Octets>)
    | EditVerification(findingId: int, verification: Option<Octets>)
    | EditMeta(findingId: int, meta: Meta)
    | EditSidecar(findingId: int, sidecar: Option<Sidecar>)
    | Tick(elapsed: nat)
    | Authorize(r: Request, fate: Fate)

  const EMPTY_BUNDLE := Bundle(None, None, Meta(false, false), None, None, None)

  function BundleOf(w: World, id: int): Bundle {
    if id in w.bundles then w.bundles[id] else EMPTY_BUNDLE
  }

  function SetBundle(w: World, id: int, b: Bundle): World {
    w.(bundles := w.bundles[id := b])
  }

  function Step(env: Env, w: World, e: Event): World {
    match e
    case EditPatch(id, p) => SetBundle(w, id, BundleOf(w, id).(patch := p))
    case EditVerification(id, v) => SetBundle(w, id, BundleOf(w, id).(verification := v))
    case EditMeta(id, m) => SetBundle(w, id, BundleOf(w, id).(meta := m))
    case EditSidecar(id, s) => SetBundle(w, id, BundleOf(w, id).(sidecar := s))
    case Tick(elapsed) => w.(clock := w.clock + elapsed)
    case Authorize(r, fate) =>
      var b := BundleOf(w, r.findingId);
      if RequestError(env, b, r).Some? then w
      else SetBundle(w, r.findingId, Marked(b, MarkerFor(env, b, r, w.clock), fate))
  }

  /** The world before event k of a run; before event |es|, the end. */
  function Before(env: Env, w: World, es: seq<Event>, k: nat): World
    requires k <= |es|
  {
    if k == 0 then w else Step(env, Before(env, w, es, k - 1), es[k - 1])
  }

  /** Event k was an authorise step that put marker m in place. */
  predicate Places(env: Env, w: World, es: seq<Event>, k: nat, m: Marker)
    requires k < |es|
  {
    es[k].Authorize? && Replaces(es[k].fate) &&
    var b := BundleOf(Before(env, w, es, k), es[k].r.findingId);
    RequestError(env, b, es[k].r) == None && MarkerFor(env, b, es[k].r, Before(env, w, es, k).clock) == m
  }

  predicate PlacesFor(env: Env, w: World, es: seq<Event>, k: nat, m: Marker, id: int)
    requires k < |es|
  {
    Places(env, w, es, k, m) && es[k].r.findingId == id
  }

  predicate SignsFor(env: Env, w: World, es: seq<Event>, k: nat, m: Marker, id: int)
    requires k < |es|
  {
    PlacesFor(env, w, es, k, m, id) && Signs(es[k].fate)
  }

  predicate NoMarkers(w: World) {
    forall id :: id in w.bundles ==> w.bundles[id].marker == None && w.bundles[id].signature == None
  }

  lemma WhoWritesMarkers(env: Env, w: World, e: Event, id: int)
    ensures var b, b' := BundleOf(w, id), BundleOf(Step(env, w, e), id);
            if e.Authorize? && e.r.findingId == id && RequestError(env, b, e.r).None? && Replaces(e.fate) then
              b'.marker == Some(MarkerFor(env, b, e.r, w.clock)) &&
              b'.signature == if Signs(e.fate) then b'.marker else b.signature
            else
              b'.marker == b.marker && b'.signature == b.signature
  {
  }

  /** Every marker in place, and every signature, goes back to a step of the run. */
  lemma {:induction false} MarkerHasAStep(env: Env, w: World, es: seq<Event>, n: nat, id: int)
    requires NoMarkers(w) && n <= |es|
    ensures var b := BundleOf(Before(env, w, es, n), id);
            (b.marker.Some? ==> exists k :: 0 <= k < n && PlacesFor(env, w, es, k, b.marker.value, id)) &&
            (b.signature.Some? ==> exists k :: 0 <= k < n && SignsFor(env, w, es, k, b.signature.value, id))
  {
    if n > 0 {
      MarkerHasAStep(env, w, es, n - 1, id);
      var before, e := Before(env, w, es, n - 1), es[n - 1];
      WhoWritesMarkers(env, before, e, id);
      if e.Authorize? && e.r.findingId == id && RequestError(env, BundleOf(before, id), e.r).None? && Replaces(e.fate) {
        var m := MarkerFor(env, BundleOf(before, id), e.r, before.clock);
        assert PlacesFor(env, w, es, n - 1, m, id);
        assert Signs(e.fate) ==> SignsFor(env, w, es, n - 1, m, id);
      }
    }
  }

  // ---- what an accepted marker implies -------------------------------------

  /** The same bytes, or a collision between the two files. */
  predicate SameFile(h: Hash, then_: Option<Octets>, now: Option<Octets>) {
    then_.Some? && now.Some? && (then_ == now || Collides(h, then_.value, now.value))
  }

  lemma SameShaSameFile(h: Hash, then_: Option<Octets>, now: Option<Octets>)
    requires then_.Some? && FileSha256(h, then_) == FileSha256(h, now)
    ensures SameFile(h, then_, now)
  {
    if now.Some? {
      HexInjective(h(then_.value), h(now.value));
    }
  }

  lemma ExpiryBound(authorized: int, ttl: int, now: int)
    requires now < (authorized + ttl * HOUR) / SECOND * SECOND
    ensures now < authorized + ttl * HOUR
  {
  }

  /** What step k saw, when the marker it placed is accepted now. */
  predicate StepJustifies(env: Env, w: World, es: seq<Event>, k: nat, id: int, engineSha: string)
    requires k < |es| && es[k].Authorize?
  {
    var before, r := Before(env, w, es, k), es[k].r;
    var end := Before(env, w, es, |es|);
    var saw, b := BundleOf(before, id), BundleOf(end, id);
    r.findingId == id &&
    r.engineSha == engineSha &&
    SameFile(env.h, saw.patch, b.patch) &&
    SameFile(env.h, saw.verification, b.verification) &&
    Strip(r.typed) == ExpectedPhrase(id, FileSha256(env.h, b.patch)) &&
    MIN_TTL_HOURS <= r.ttlHours <= MAX_TTL_HOURS &&
    end.clock < before.clock + r.ttlHours * HOUR &&
    env.parse(saw.verification.value).Some? &&
    RequiredPassed(env.parse(saw.verification.value).value) &&
    AllPassed(env, env.parse(saw.verification.value).value) &&
    !Crafted(env.parse(saw.verification.value).value, saw.meta)
  }

  lemma AcceptedStepJustifies(env: Env, w: World, es: seq<Event>, k: nat, m: Marker, id: int, engineSha: string,
                              allowUnsigned: bool, pubKeyUsable: bool)
    requires k < |es| && PlacesFor(env, w, es, k, m, id)
    requires var end := Before(env, w, es, |es|);
             Validate(env, BundleOf(end, id), id, engineSha, end.clock, allowUnsigned, pubKeyUsable) == Ok(m)
    ensures StepJustifies(env, w, es, k, id, engineSha)
  {
    var before, r := Before(env, w, es, k), es[k].r;
    var end := Before(env, w, es, |es|);
    var saw, b := BundleOf(before, id), BundleOf(end, id);
    SameShaSameFile(env.h, saw.patch, b.patch);
    SameShaSameFile(env.h, saw.verification, b.verification);
    ExpiryBound(before.clock, r.ttlHours, end.clock);
  }

  /**
   * The gate: in any interleaving of edits, clock ticks and authorise steps, crashed
   * or not, an accepted marker goes back to an authorise step for the same finding,
   * engine, patch and verification, whose gates had passed, whose phrase was the one
   * for that patch, and whose time to live is not over.
   */
  lemma AcceptedOnlyIfAuthorized(env: Env, w: World, es: seq<Event>, id: int, engineSha: string,
                                 allowUnsigned: bool, pubKeyUsable: bool)
    requires NoMarkers(w)
    requires var end := Before(env, w, es, |es|);
             Validate(env, BundleOf(end, id), id, engineSha, end.clock, allowUnsigned, pubKeyUsable).Ok?
    ensures exists k :: 0 <= k < |es| && es[k].Authorize? && Replaces(es[k].fate) &&
                        StepJustifies(env, w, es, k, id, engineSha)
  {
    var end := Before(env, w, es, |es|);
    var m := Validate(env, BundleOf(end, id), id, engineSha, end.clock, allowUnsigned, pubKeyUsable).value;
    MarkerHasAStep(env, w, es, |es|, id);
    var k :| 0 <= k < |es| && PlacesFor(env, w, es, k, m, id);
    AcceptedStepJustifies(env, w, es, k, m, id, engineSha, allowUnsigned, pubKeyUsable);
  }

  /** By default the step also went on to sign: a crash before signing never opens the gate. */
  lemma AcceptedByDefaultOnlyIfSigned(env: Env, w: World, es: seq<Event>, id: int, engineSha: string,
                                      pubKeyUsable: bool)
    requires NoMarkers(w)
    requires var end := Before(env, w, es, |es|);
             Validate(env, BundleOf(end, id), id, engineSha, end.clock, false, pubKeyUsable).Ok?
    ensures pubKeyUsable
    ensures exists k :: 0 <= k < |es| && es[k].Authorize? && Signs(es[k].fate) &&
                        StepJustifies(env, w, es, k, id, engineSha)
  {
    var end := Before(env, w, es, |es|);
    var b := BundleOf(end, id);
    var m := Validate(env, b, id, engineSha, end.clock, false, pubKeyUsable).value;
    assert b.signature == Some(m);
    MarkerHasAStep(env, w, es, |es|, id);
    var k :| 0 <= k < |es| && SignsFor(env, w, es, k, m, id);
    AcceptedStepJustifies(env, w, es, k, m, id, engineSha, false, pubKeyUsable);
  }

  /** A completed, signed step opens the gate at once, for exactly what it saw, until it expires. */
  lemma SignedStepIsAccepted(env: Env, b: Bundle, r: Request, authorized: int, now: int)
    requires RequestError(env, b, r) == None
    ensures Validate(env, Marked(b, MarkerFor(env, b, r, authorized), SignedOk), r.findingId, r.engineSha, now,
                     false, true).Ok?
            <==> now < (authorized + r.ttlHours * HOUR) / SECOND * SECOND
  {
    HexIsHex(env.h(b.patch.value));
    HexIsHex(env.h(b.verification.value));
  }

  // ---- the gates, the phrase and the times, spelled out ---------------------

  predicate GatePassed(v: Verification, name: string) {
    name in v.gates && v.gates[name].passed == Yes
  }

  predicate FiveRecorded(v: Verification) {
    "patch_well_formed" in v.gates && "poc_fails_pre_patch" in v.gates && "poc_passes_post_patch" in v.gates &&
    "tests_pass_post_patch" in v.gates && "patch_unchanged_during_verify" in v.gates
  }

  predicate FivePassed(v: Verification) {
    GatePassed(v, "patch_well_formed") && GatePassed(v, "poc_fails_pre_patch") &&
    GatePassed(v, "poc_passes_post_patch") && GatePassed(v, "tests_pass_post_patch") &&
    GatePassed(v, "patch_unchanged_during_verify")
  }

  lemma AllOfFive(v: Verification, a: string, b: string, c: string, d: string, e: string)
    ensures (forall name :: name in [a, b, c, d, e] ==> GatePassed(v, name)) <==>
            GatePassed(v, a) && GatePassed(v, b) && GatePassed(v, c) && GatePassed(v, d) && GatePassed(v, e)
  {
    assert forall name :: name in [a, b, c, d, e] <==> name == a || name == b || name == c || name == d || name == e;
  }

  lemma OneOfFiveMissing(v: Verification, a: string, b: string, c: string, d: string, e: string)
    ensures (forall name :: name in [a, b, c, d, e] ==> name in v.gates) <==>
            a in v.gates && b in v.gates && c in v.gates && d in v.gates && e in v.gates
  {
    assert forall name :: name in [a, b, c, d, e] <==> name == a || name == b || name == c || name == d || name == e;
  }

  lemma FivePassedIff(v: Verification)
    ensures RequiredPassed(v) <==> FivePassed(v)
  {
    AllOfFive(v, "patch_well_formed", "poc_fails_pre_patch", "poc_passes_post_patch", "tests_pass_post_patch",
              "patch_unchanged_during_verify");
    assert RequiredPassed(v) <==> forall name :: name in RequiredGates() ==> GatePassed(v, name);
  }

  lemma FiveRecordedIff(v: Verification)
    ensures (exists name :: name in RequiredGates() && name !in v.gates) <==> !FiveRecorded(v)
  {
    OneOfFiveMissing(v, "patch_well_formed", "poc_fails_pre_patch", "poc_passes_post_patch", "tests_pass_post_patch",
                     "patch_unchanged_during_verify");
    assert (exists name :: name in RequiredGates() && name !in v.gates) <==>
      !(forall name :: name in RequiredGates() ==> name in v.gates);
  }

  /** A skipped gate is let through with an accepted code, a failed one never. */
  predicate OthersPassed(env: Env, v: Verification) {
    forall name :: name in v.gates ==>
      v.gates[name].passed == Yes ||
      ((v.gates[name].passed.Null? || v.gates[name].passed.Other?) &&
       env.acceptsSkip(name, v.gates[name].skipCode, v.engineLang))
  }

  /** A tool was skipped as not registered although it is. */
  predicate SkippedThoughRegistered(v: Verification, meta: Meta) {
    exists name :: name in v.gates && v.gates[name].passed == Null &&
      ((v.gates[name].skipCode == Some("no_kani_harness_registered") && (v.effectiveKani || meta.kani)) ||
       (v.gates[name].skipCode == Some("no_litesvm_test_name_registered") && (v.effectiveLitesvm || meta.litesvm)))
  }

  lemma OthersPassedIff(env: Env, v: Verification)
    ensures AllPassed(env, v) <==> OthersPassed(env, v)
  {
  }

  /** A request gets as far as its gates. */
  predicate ReachesGates(env: Env, b: Bundle, r: Request) {
    |r.engineSha| == 40 && AllHex(r.engineSha) && 1 <= r.ttlHours <= 168 && b.patch.Some? && b.verification.Some? &&
    env.parse(b.verification.value).Some?
  }

  /** Missing is a gate that is not recorded, failed one that is recorded and is not `true`, of the five. */
  lemma GateRefusalIff(env: Env, b: Bundle, r: Request)
    requires ReachesGates(env, b, r)
    ensures var v := env.parse(b.verification.value).value;
            (RequestError(env, b, r) == Some(MissingGates) <==> !FiveRecorded(v)) &&
            (RequestError(env, b, r) == Some(FailedGates) <==> FiveRecorded(v) && !FivePassed(v))
  {
    FivePassedIff(env.parse(b.verification.value).value);
    FiveRecordedIff(env.parse(b.verification.value).value);
  }

  /** Exactly which requests are authorised. */
  lemma AuthorizedIff(env: Env, b: Bundle, r: Request)
    ensures RequestError(env, b, r).None? <==>
            ReachesGates(env, b, r) &&
            (var v := env.parse(b.verification.value).value;
             FivePassed(v) && OthersPassed(env, v) && !SkippedThoughRegistered(v, b.meta)) &&
            Strip(r.typed) == "yes-authorize-finding-" + (DecimalInt(r.findingId) + ("-" + Hex(env.h(b.patch.value))))
  {
    if ReachesGates(env, b, r) {
      var v := env.parse(b.verification.value).value;
      FivePassedIff(v);
      FiveRecordedIff(v);
      OthersPassedIff(env, v);
      PhraseIsAscii(r.findingId, Hex(env.h(b.patch.value)), env.h(b.patch.value));
    }
  }

  lemma {:induction false} DigitsAreAscii(s: string)
    requires AllDigits(s) || AllHex(s)
    ensures IsAscii(s)
  {
  }

  lemma DecimalIsAscii(n: int)
    ensures IsAscii(DecimalInt(n))
  {
    HeadIsAscii();
    DigitsAreAscii(Decimal(if n < 0 then -n else n));
    if n < 0 {
      AsciiConcat("-", Decimal(-n));
    }
  }

  lemma HeadIsAscii()
    ensures IsAscii("yes-authorize-finding-") && IsAscii("-")
  {
  }

  lemma PhraseIsAscii(id: int, sha: string, digest: Octets)
    requires sha == Hex(digest)
    ensures IsAscii(ExpectedPhrase(id, sha))
  {
    HexIsHex(digest);
    HeadIsAscii();
    DigitsAreAscii(sha);
    DecimalIsAscii(id);
    AsciiConcat("-", sha);
    AsciiConcat(DecimalInt(id), "-" + sha);
    AsciiConcat("yes-authorize-finding-", DecimalInt(id) + ("-" + sha));
  }

  lemma AsciiConcat(a: string, b: string)
    requires IsAscii(a) && IsAscii(b)
    ensures IsAscii(a + b)
  {
  }

  /** The marker: what was asked for and seen, and times in whole seconds. */
  lemma MarkerSpelled(env: Env, b: Bundle, r: Request, now: int)
    requires RequestError(env, b, r).None?
    ensures MarkerFor(env, b, r, now) ==
            Marker(r.findingId, r.engineSha, Hex(env.h(b.patch.value)), now / 1_000_000,
                   (now + r.ttlHours * 3_600_000_000) / 1_000_000, r.authorizer, Hex(env.h(b.verification.value)),
                   Strip(r.typed))
  {
  }

  /**
   * What an accepted marker rests on, by name: the five gates were recorded as passed, the phrase
   * was typed, and at most 168 hours have gone by.
   */
  lemma AcceptedRestsOnFiveGates(env: Env, w: World, es: seq<Event>, id: int, engineSha: string,
                                 allowUnsigned: bool, pubKeyUsable: bool)
    requires NoMarkers(w)
    requires var end := Before(env, w, es, |es|);
             Validate(env, BundleOf(end, id), id, engineSha, end.clock, allowUnsigned, pubKeyUsable).Ok?
    ensures exists k :: 0 <= k < |es| && RestsOn(env, w, es, k, id, engineSha)
  {
    AcceptedOnlyIfAuthorized(env, w, es, id, engineSha, allowUnsigned, pubKeyUsable);
    var k :| 0 <= k < |es| && es[k].Authorize? && Replaces(es[k].fate) && StepJustifies(env, w, es, k, id, engineSha);
    var saw := BundleOf(Before(env, w, es, k), id);
    FivePassedIff(env.parse(saw.verification.value).value);
    OthersPassedIff(env, env.parse(saw.verification.value).value);
    assert RestsOn(env, w, es, k, id, engineSha);
  }

  predicate RestsOn(env: Env, w: World, es: seq<Event>, k: nat, id: int, engineSha: string)
    requires k < |es|
  {
    es[k].Authorize? && es[k].r.findingId == id && es[k].r.engineSha == engineSha &&
    var before, end := Before(env, w, es, k), Before(env, w, es, |es|);
    var saw, b := BundleOf(before, id), BundleOf(end, id);
    saw.verification.Some? && env.parse(saw.verification.value).Some? &&
    (var v := env.parse(saw.verification.value).value;
     FivePassed(v) && OthersPassed(env, v) && !SkippedThoughRegistered(v, saw.meta)) &&
    SameFile(env.h, saw.patch, b.patch) && SameFile(env.h, saw.verification, b.verification) &&
    Strip(es[k].r.typed) == "yes-authorize-finding-" + (DecimalInt(id) + ("-" + FileSha256(env.h, b.patch))) &&
    end.clock < before.clock + 168 * 3_600_000_000
  }

  // ---- exactly when the gate is open after a run ---------------------------

  /** Event k was an authorise step for this finding that put a marker in place. */
  predicate Placed(env: Env, w: World, es: seq<Event>, id: int, k: nat) {
    k < |es| && es[k].Authorize? && es[k].r.findingId == id && Replaces(es[k].fate) &&
    RequestError(env, BundleOf(Before(env, w, es, k), id), es[k].r).None?
  }

  predicate PlacedAndSigned(env: Env, w: World, es: seq<Event>, id: int, k: nat) {
    Placed(env, w, es, id, k) && Signs(es[k].fate)
  }

  /** The last number below n with a property. */
  function Last(n: nat, p: nat -> bool): (r: Option<nat>)
    ensures r.Some? ==> r.value < n && p(r.value)
    ensures forall l :: (if r.Some? then r.value + 1 else 0) <= l < n ==> !p(l)
  {
    if n == 0 then None else if p(n - 1) then Some(n - 1) else Last(n - 1, p)
  }

  function LastPlaced(env: Env, w: World, es: seq<Event>, id: int, n: nat): Option<nat> {
    Last(n, (k: nat) => Placed(env, w, es, id, k))
  }

  function LastSigned(env: Env, w: World, es: seq<Event>, id: int, n: nat): Option<nat> {
    Last(n, (k: nat) => PlacedAndSigned(env, w, es, id, k))
  }

  function MarkerAt(env: Env, w: World, es: seq<Event>, k: nat): Marker
    requires k < |es| && es[k].Authorize?
  {
    var before := Before(env, w, es, k);
    MarkerFor(env, BundleOf(before, es[k].r.findingId), es[k].r, before.clock)
  }

  function MarkerOf(env: Env, w: World, es: seq<Event>, k: Option<nat>): Option<Marker> {
    if k.Some? && k.value < |es| && es[k.value].Authorize? then Some(MarkerAt(env, w, es, k.value)) else None
  }

  lemma MarkersAfterEvent(env: Env, w: World, es: seq<Event>, id: int, k: nat)
    requires k < |es|
    ensures var b, b' := BundleOf(Before(env, w, es, k), id), BundleOf(Before(env, w, es, k + 1), id);
            b'.marker == (if Placed(env, w, es, id, k) then MarkerOf(env, w, es, Some(k)) else b.marker) &&
            b'.signature == if PlacedAndSigned(env, w, es, id, k) then MarkerOf(env, w, es, Some(k)) else b.signature
  {
    WhoWritesMarkers(env, Before(env, w, es, k), es[k], id);
  }

  lemma LastStep(env: Env, w: World, es: seq<Event>, id: int, k: nat)
    ensures LastPlaced(env, w, es, id, k + 1) ==
            if Placed(env, w, es, id, k) then Some(k) else LastPlaced(env, w, es, id, k)
    ensures LastSigned(env, w, es, id, k + 1) ==
            if PlacedAndSigned(env, w, es, id, k) then Some(k) else LastSigned(env, w, es, id, k)
  {
  }

  /** The marker in place is that of the last step that placed one, the signature that of the last that also signed. */
  ghost predicate LastWins(env: Env, w: World, es: seq<Event>, id: int, n: nat)
    requires n <= |es|
  {
    var b := BundleOf(Before(env, w, es, n), id);
    b.marker == MarkerOf(env, w, es, LastPlaced(env, w, es, id, n)) &&
    b.signature == MarkerOf(env, w, es, LastSigned(env, w, es, id, n))
  }

  lemma LastWinsNext(env: Env, w: World, es: seq<Event>, id: int, k: nat)
    requires k < |es| && LastWins(env, w, es, id, k)
    ensures LastWins(env, w, es, id, k + 1)
  {
    MarkersAfterEvent(env, w, es, id, k);
    LastStep(env, w, es, id, k);
  }

  lemma {:induction false} LastStepsWin(env: Env, w: World, es: seq<Event>, id: int, n: nat)
    requires NoMarkers(w) && n <= |es|
    ensures LastWins(env, w, es, id, n)
  {
    if n == 0 {
      assert LastPlaced(env, w, es, id, 0) == None && LastSigned(env, w, es, id, 0) == None;
    } else {
      LastStepsWin(env, w, es, id, n - 1);
      LastWinsNext(env, w, es, id, n - 1);
    }
  }

  /** The sidecar vouches for the marker of step k: signed for it, or missing or unsigned where that is allowed. */
  predicate Vouched(env: Env, w: World, es: seq<Event>, k: nat, id: int, allowUnsigned: bool, pubKeyUsable: bool)
    requires k < |es| && es[k].Authorize?
  {
    match BundleOf(Before(env, w, es, |es|), id).sidecar
    case None => allowUnsigned
    case Some(Unsigned) => allowUnsigned
    case Some(Signed) =>
      pubKeyUsable && MarkerOf(env, w, es, LastSigned(env, w, es, id, |es|)) == Some(MarkerAt(env, w, es, k))
    case Some(_) => false
  }

  predicate GatesPassNow(env: Env, verification: Option<Octets>) {
    verification.Some? && env.parse(verification.value).Some? && AllPassed(env, env.parse(verification.value).value)
  }

  /** The engine, both files, the gates and the time of a request that saw one bundle still stand in another. */
  predicate RequestStands(env: Env, saw: Bundle, r: Request, authorized: int, b: Bundle, engineSha: string, now: int) {
    r.engineSha == engineSha &&
    SameFile(env.h, saw.patch, b.patch) && SameFile(env.h, saw.verification, b.verification) &&
    GatesPassNow(env, b.verification) &&
    now < (authorized + r.ttlHours * HOUR) / SECOND * SECOND
  }

  /** And of step k they still stand at the end of the run, and the sidecar vouches for it. */
  predicate StillStands(env: Env, w: World, es: seq<Event>, k: nat, id: int, engineSha: string,
                        allowUnsigned: bool, pubKeyUsable: bool)
    requires k < |es| && es[k].Authorize?
  {
    var before, end := Before(env, w, es, k), Before(env, w, es, |es|);
    RequestStands(env, BundleOf(before, id), es[k].r, before.clock, BundleOf(end, id), engineSha, end.clock) &&
    Vouched(env, w, es, k, id, allowUnsigned, pubKeyUsable)
  }

  lemma SameShaIff(h: Hash, then_: Option<Octets>, now: Option<Octets>)
    requires then_.Some?
    ensures FileSha256(h, then_) == FileSha256(h, now) <==> SameFile(h, then_, now)
    ensures IsHex(FileSha256(h, then_), 64)
  {
    HexIsHex(h(then_.value));
    if FileSha256(h, then_) == FileSha256(h, now) {
      SameShaSameFile(h, then_, now);
    }
  }

  lemma MarkerIsValidIff(env: Env, saw: Bundle, r: Request, authorized: int, b: Bundle, engineSha: string, now: int,
                         allowUnsigned: bool, pubKeyUsable: bool)
    requires RequestError(env, saw, r).None?
    ensures var m := MarkerFor(env, saw, r, authorized);
            ValidationError(env, b, m, r.findingId, engineSha, now, allowUnsigned, pubKeyUsable).None?
            <==> RequestStands(env, saw, r, authorized, b, engineSha, now) &&
                 SidecarError(b, m, allowUnsigned, pubKeyUsable).None?
  {
    SameShaIff(env.h, saw.patch, b.patch);
    SameShaIff(env.h, saw.verification, b.verification);
  }

  lemma VouchedIff(env: Env, w: World, es: seq<Event>, id: int, k: nat, allowUnsigned: bool, pubKeyUsable: bool)
    requires k < |es| && es[k].Authorize?
    requires BundleOf(Before(env, w, es, |es|), id).signature == MarkerOf(env, w, es, LastSigned(env, w, es, id, |es|))
    ensures SidecarError(BundleOf(Before(env, w, es, |es|), id), MarkerAt(env, w, es, k),
                         allowUnsigned, pubKeyUsable).None?
            <==> Vouched(env, w, es, k, id, allowUnsigned, pubKeyUsable)
  {
  }

  /** `validate_authorization` at the end of a run. */
  predicate Accepted(env: Env, w: World, es: seq<Event>, id: int, engineSha: string,
                     allowUnsigned: bool, pubKeyUsable: bool) {
    var end := Before(env, w, es, |es|);
    Validate(env, BundleOf(end, id), id, engineSha, end.clock, allowUnsigned, pubKeyUsable).Ok?
  }

  lemma PlacedIsAcceptedIff(env: Env, w: World, es: seq<Event>, id: int, k: nat, engineSha: string,
                            allowUnsigned: bool, pubKeyUsable: bool)
    requires Placed(env, w, es, id, k)
    requires var b := BundleOf(Before(env, w, es, |es|), id);
             b.marker == Some(MarkerAt(env, w, es, k)) &&
             b.signature == MarkerOf(env, w, es, LastSigned(env, w, es, id, |es|))
    ensures Accepted(env, w, es, id, engineSha, allowUnsigned, pubKeyUsable)
            <==> StillStands(env, w, es, k, id, engineSha, allowUnsigned, pubKeyUsable)
  {
    var before, end := Before(env, w, es, k), Before(env, w, es, |es|);
    VouchedIff(env, w, es, id, k, allowUnsigned, pubKeyUsable);
    MarkerIsValidIff(env, BundleOf(before, id), es[k].r, before.clock, BundleOf(end, id), engineSha, end.clock,
                     allowUnsigned, pubKeyUsable);
  }

  /**
   * The gate, both ways: after any run it is open exactly when there is a last step that placed
   * a marker for the finding and everything that step saw still stands.
   */
  lemma GateIsOpenIff(env: Env, w: World, es: seq<Event>, id: int, engineSha: string,
                      allowUnsigned: bool, pubKeyUsable: bool)
    requires NoMarkers(w)
    ensures Accepted(env, w, es, id, engineSha, allowUnsigned, pubKeyUsable)
            <==> match LastPlaced(env, w, es, id, |es|)
                 case None => false
                 case Some(k) =>
                   k < |es| && es[k].Authorize? &&
                   StillStands(env, w, es, k, id, engineSha, allowUnsigned, pubKeyUsable)
  {
    LastStepsWin(env, w, es, id, |es|);
    var last := LastPlaced(env, w, es, id, |es|);
    if last.Some? {
      PlacedIsAcceptedIff(env, w, es, id, last.value, engineSha, allowUnsigned, pubKeyUsable);
    }
  }

  lemma LastPart(head: string, a: string, p: string, b: string, q: string)
    requires |p| == |q| && head + (a + ("-" + p)) == head + (b + ("-" + q))
    ensures a == b && p == q
  {
    var s, t := a + ("-" + p), b + ("-" + q);
    assert s == (head + s)[|head|..] == t;
    assert |a| == |s| - |p| - 1 == |b|;
    assert a == s[..|a|] && b == t[..|a|];
    assert p == s[|a| + 1..] && q == t[|a| + 1..];
  }

  /** The phrase names one finding and one patch digest. */
  lemma PhraseNamesOnePatch(i: int, p: string, j: int, q: string)
    requires |p| == |q| == 64
    requires ExpectedPhrase(i, p) == ExpectedPhrase(j, q)
    ensures i == j && p == q
  {
    LastPart("yes-authorize-finding-", DecimalInt(i), p, DecimalInt(j), q);
    DecimalIntInjective(i, j);
  }
}
