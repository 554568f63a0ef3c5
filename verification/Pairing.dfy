/** SP1 pairing codes and claim requests: their shape checks and the digests that bind them.
    SHA-256 is a parameter; the JSON and CSR encoders are not part of this model. */
module Pairing {
  import opened Wrappers
  import opened Base64

  datatype Error =
    | NotFound | Conflict | Expired | Revoked | Secret | Binding | RecoveryWindow
    | UnsupportedPurpose | Incomplete | Database | InvalidPayload

  const PURPOSE_CONTROL_AGENT := "control-agent"
  const PURPOSE_RELAY := "relay"
  const ACTION_PAIR := "pair"
  const ACTION_ADOPT := "adopt"
  const ACTION_ROTATE := "rotate"
  const ACTION_ENROLL := "enroll"
  const CLAIM_PREFIX := "starry-pairing-claim-v1"

  /** The hex text of SHA-256, of a string or of raw bytes. */
  datatype Hash = Hash(ofText: string -> string, ofBytes: seq<byte> -> string)

  datatype ClaimRequest = ClaimRequest(
    version: int, purpose: string, action: string, enrollmentID: string, configurationDigest: string,
    secret: string, requestDigest: string, keyFingerprint: string, csrPEM: string, instanceID: Option<string>)

  predicate IsHexDigit(c: char) {
    '0' <= c <= '9' || 'a' <= c <= 'f' || 'A' <= c <= 'F'
  }

  predicate ValidSHA256(value: string) {
    && |value| == 71 && value[..7] == "sha256:"
    && (forall i :: 7 <= i < 71 ==> IsHexDigit(value[i]))
    && (forall i :: 0 <= i < 71 ==> !('A' <= value[i] <= 'Z'))
  }

  predicate ValidPurpose(purpose: string) {
    purpose == PURPOSE_CONTROL_AGENT || purpose == PURPOSE_RELAY
  }

  predicate ValidPurposeAction(purpose: string, action: string) {
    if purpose == PURPOSE_CONTROL_AGENT then action == ACTION_PAIR || action == ACTION_ADOPT || action == ACTION_ROTATE
    else purpose == PURPOSE_RELAY && action == ACTION_ENROLL
  }

  function SecretDigest(secret: string, h: Hash): Option<string> {
    if Canonical(RawURLEncoding, secret, 32) then Some(h.ofBytes(Decode(RawURLEncoding, secret).value)) else None
  }

  function InstanceText(r: ClaimRequest): string {
    match r.instanceID case None => "" case Some(id) => id
  }

  /** Fields joined by line feeds. */
  function Lines(fields: seq<string>): string {
    if |fields| == 0 then []
    else if |fields| == 1 then fields[0]
    else fields[0] + ['\n'] + Lines(fields[1..])
  }

  function ClaimFields(r: ClaimRequest, h: Hash): seq<string> {
    [CLAIM_PREFIX, r.purpose, r.action, r.enrollmentID, r.configurationDigest, r.keyFingerprint,
     h.ofText(r.csrPEM), InstanceText(r)]
  }

  function ExpectedRequestDigest(r: ClaimRequest, h: Hash): string {
    h.ofText(Lines(ClaimFields(r, h)))
  }

  predicate IsSpace(c: char) {
    c == ' ' || '\t' <= c <= '\r' || c == 0x85 as char || c == 0xA0 as char || c == 0x1680 as char
    || 0x2000 as char <= c <= 0x200A as char || c == 0x2028 as char || c == 0x2029 as char
    || c == 0x202F as char || c == 0x205F as char || c == 0x3000 as char
  }

  predicate Blank(s: string) {
    forall i :: 0 <= i < |s| ==> IsSpace(s[i])
  }

  function ValidClaimShape(r: ClaimRequest, h: Hash): Option<Error> {
    if r.version != 1 || !ValidPurposeAction(r.purpose, r.action) then Some(UnsupportedPurpose)
    else if r.enrollmentID == "" || !ValidSHA256(r.configurationDigest) || !ValidSHA256(r.requestDigest)
            || !ValidSHA256(r.keyFingerprint) then Some(Binding)
    else if |r.csrPEM| < 1 || |r.csrPEM| > 32768 then Some(Binding)
    else if SecretDigest(r.secret, h).None? then Some(Secret)
    else if r.purpose == PURPOSE_CONTROL_AGENT && (r.instanceID.None? || Blank(r.instanceID.value)) then Some(Binding)
    else if r.purpose == PURPOSE_RELAY && r.instanceID.Some? then Some(Binding)
    else if ExpectedRequestDigest(r, h) != r.requestDigest then Some(Binding)
    else None
  }

  // ---------- what the request digest binds ----------

  predicate OneLine(s: string) {
    '\n' !in s
  }

  /** The first line of a text is determined by the text. */
  lemma {:induction false} FirstLine(a: string, restA: string, b: string, restB: string)
    requires OneLine(a) && OneLine(b)
    requires a + ['\n'] + restA == b + ['\n'] + restB
    ensures a == b && restA == restB
  {
    var s, t := a + ['\n'] + restA, b + ['\n'] + restB;
    assert s[|a|] == '\n' && t[|b|] == '\n';
    assert forall k :: 0 <= k < |a| ==> s[k] == a[k] && a[k] in a;
    assert forall k :: 0 <= k < |b| ==> t[k] == b[k] && b[k] in b;
    assert s[..|a|] == a && t[..|b|] == b;
    assert s[|a| + 1..] == restA && t[|b| + 1..] == restB;
  }

  /** Joining fields by line feeds is injective when all but the last are one line. */
  lemma {:induction false} LinesInjective(a: seq<string>, b: seq<string>)
    requires |a| == |b| > 0 && Lines(a) == Lines(b)
    requires forall i :: 0 <= i < |a| - 1 ==> OneLine(a[i]) && OneLine(b[i])
    ensures a == b
  {
    if |a| > 1 {
      FirstLine(a[0], Lines(a[1..]), b[0], Lines(b[1..]));
      LinesInjective(a[1..], b[1..]);
      assert a == [a[0]] + a[1..] && b == [b[0]] + b[1..];
    }
  }

  lemma DigestsAreOneLine(value: string)
    requires ValidSHA256(value)
    ensures OneLine(value)
  {
    assert forall i :: 0 <= i < 7 ==> value[i] == value[..7][i];
  }

  function TailFields(r: ClaimRequest, h: Hash): seq<string> {
    [r.configurationDigest, r.keyFingerprint, h.ofText(r.csrPEM), InstanceText(r)]
  }

  lemma LinesPrepend(first: string, rest: seq<string>)
    requires rest != []
    ensures Lines([first] + rest) == first + ['\n'] + Lines(rest)
  {
    assert ([first] + rest)[1..] == rest;
  }

  lemma TwoLinesBefore(w: string, x: string, rest: seq<string>)
    requires rest != []
    ensures Lines([w, x] + rest) == w + ['\n'] + (x + ['\n'] + Lines(rest))
  {
    LinesPrepend(x, rest);
    LinesPrepend(w, [x] + rest);
    assert [w, x] + rest == [w] + ([x] + rest);
  }

  /** The preimage, one line at a time. */
  lemma ClaimLines(r: ClaimRequest, h: Hash)
    ensures Lines(ClaimFields(r, h)) ==
      CLAIM_PREFIX + ['\n'] + (r.purpose + ['\n'] + (r.action + ['\n'] + IDAndTail(r, h)))
  {
    var t := TailFields(r, h);
    var body := [r.action, r.enrollmentID] + t;
    TwoLinesBefore(r.action, r.enrollmentID, t);
    TwoLinesBefore(CLAIM_PREFIX, r.purpose, body);
    assert ClaimFields(r, h) == [CLAIM_PREFIX, r.purpose] + body;
  }

  /** What follows the action in a preimage: the enrollment id, a line feed, and the bound fields. */
  function IDAndTail(r: ClaimRequest, h: Hash): string {
    r.enrollmentID + ['\n'] + Lines(TailFields(r, h))
  }

  /** The hash does not collide on these two texts. */
  predicate Apart(h: Hash, a: string, b: string) {
    h.ofText(a) == h.ofText(b) ==> a == b
  }

  /** Two well-shaped claims with one digest, from a hash that collides neither on their preimages nor
      on their CSRs and gives the CSRs digests of the usual form. */
  predicate OneDigest(h: Hash, a: ClaimRequest, b: ClaimRequest) {
    && ValidClaimShape(a, h).None? && ValidClaimShape(b, h).None? && a.requestDigest == b.requestDigest
    && Apart(h, Lines(ClaimFields(a, h)), Lines(ClaimFields(b, h))) && Apart(h, a.csrPEM, b.csrPEM)
    && ValidSHA256(h.ofText(a.csrPEM)) && ValidSHA256(h.ofText(b.csrPEM))
  }

  /** The same claim, whatever secret it was presented with. */
  predicate SameClaim(a: ClaimRequest, b: ClaimRequest) {
    a == b.(secret := a.secret)
  }

  lemma ShapedParts(r: ClaimRequest, h: Hash)
    requires ValidClaimShape(r, h).None?
    ensures ValidPurposeAction(r.purpose, r.action)
    ensures ValidSHA256(r.configurationDigest) && ValidSHA256(r.keyFingerprint)
  {
  }

  lemma ActionsAreOneLine(purpose: string, action: string)
    requires ValidPurposeAction(purpose, action)
    ensures OneLine(purpose) && OneLine(action)
  {
  }

  lemma ShapedTail(r: ClaimRequest, h: Hash)
    requires ValidClaimShape(r, h).None? && ValidSHA256(h.ofText(r.csrPEM))
    ensures OneLine(r.configurationDigest) && OneLine(r.keyFingerprint) && OneLine(h.ofText(r.csrPEM))
    ensures OneLine(r.purpose) && OneLine(r.action)
  {
    ShapedParts(r, h);
    ActionsAreOneLine(r.purpose, r.action);
    DigestsAreOneLine(r.configurationDigest);
    DigestsAreOneLine(r.keyFingerprint);
    DigestsAreOneLine(h.ofText(r.csrPEM));
  }

  /** Up to the enrollment id, the preimage of a well-shaped claim can be read in one way. */
  lemma SameHead(a: ClaimRequest, b: ClaimRequest, h: Hash)
    requires OneDigest(h, a, b)
    ensures a.purpose == b.purpose && a.action == b.action && IDAndTail(a, h) == IDAndTail(b, h)
  {
    ShapedTail(a, h);
    ShapedTail(b, h);
    ClaimLines(a, h);
    ClaimLines(b, h);
    SamePreamble(CLAIM_PREFIX, a.purpose, a.action, IDAndTail(a, h),
                 b.purpose, b.action, IDAndTail(b, h));
  }

  lemma SamePreamble(head: string, p: string, x: string, restA: string, q: string, y: string, restB: string)
    requires OneLine(head) && OneLine(p) && OneLine(x) && OneLine(q) && OneLine(y)
    requires head + ['\n'] + (p + ['\n'] + (x + ['\n'] + restA)) == head + ['\n'] + (q + ['\n'] + (y + ['\n'] + restB))
    ensures p == q && x == y && restA == restB
  {
    FirstLine(head, p + ['\n'] + (x + ['\n'] + restA), head, q + ['\n'] + (y + ['\n'] + restB));
    FirstLine(p, x + ['\n'] + restA, q, y + ['\n'] + restB);
    FirstLine(x, restA, y, restB);
  }

  lemma SameTail(a: ClaimRequest, b: ClaimRequest, h: Hash)
    requires OneDigest(h, a, b) && Lines(TailFields(a, h)) == Lines(TailFields(b, h))
    ensures a.configurationDigest == b.configurationDigest && a.keyFingerprint == b.keyFingerprint
    ensures a.csrPEM == b.csrPEM && InstanceText(a) == InstanceText(b)
  {
    ShapedTail(a, h);
    ShapedTail(b, h);
    var f, g := TailFields(a, h), TailFields(b, h);
    LinesInjective(f, g);
    assert f[0] == g[0] && f[1] == g[1] && f[2] == g[2] && f[3] == g[3];
  }

  /** Two well-shaped claims with one digest are the same claim if and only if their enrollment ids
      are equally long: then purpose, action, configuration, key, CSR and instance all coincide. */
  lemma DigestBindsTheClaim(a: ClaimRequest, b: ClaimRequest, h: Hash)
    ensures OneDigest(h, a, b) ==> (SameClaim(a, b) <==> |a.enrollmentID| == |b.enrollmentID|)
  {
    if OneDigest(h, a, b) && |a.enrollmentID| == |b.enrollmentID| {
      EqualIDs(a, b, h);
      SameTail(a, b, h);
      SameShape(a, b, h);
    }
  }

  lemma EqualIDs(a: ClaimRequest, b: ClaimRequest, h: Hash)
    requires OneDigest(h, a, b) && |a.enrollmentID| == |b.enrollmentID|
    ensures a.purpose == b.purpose && a.action == b.action && a.enrollmentID == b.enrollmentID
    ensures Lines(TailFields(a, h)) == Lines(TailFields(b, h))
  {
    SameHead(a, b, h);
    SamePrefix(a.enrollmentID, Lines(TailFields(a, h)), b.enrollmentID, Lines(TailFields(b, h)));
  }

  /** A well-shaped claim's version and whether it names an instance follow from its purpose. */
  lemma SameShape(a: ClaimRequest, b: ClaimRequest, h: Hash)
    requires ValidClaimShape(a, h).None? && ValidClaimShape(b, h).None? && a.purpose == b.purpose
    ensures a.version == b.version && (InstanceText(a) == InstanceText(b) ==> a.instanceID == b.instanceID)
  {
  }

  lemma SamePrefix(x: string, restX: string, y: string, restY: string)
    requires |x| == |y| && x + ['\n'] + restX == y + ['\n'] + restY
    ensures x == y && restX == restY
  {
    var s, t := x + ['\n'] + restX, y + ['\n'] + restY;
    assert s[..|x|] == x && t[..|y|] == y && s[|x| + 1..] == restX && t[|y| + 1..] == restY;
  }

  /** A line feed cannot stand inside the 71 characters that follow the first separator. */
  lemma SeparatorSkipsDigest(x: string, digest: string, restX: string, y: string, restY: string)
    requires OneLine(digest) && |x| < |y| && x + ['\n'] + (digest + ['\n'] + restX) == y + ['\n'] + restY
    ensures |y| > |x| + |digest|
  {
    var s := x + ['\n'] + (digest + ['\n'] + restX);
    assert s[|y|] == (y + ['\n'] + restY)[|y|] == '\n';
    forall k | |x| < k <= |x| + |digest|
      ensures s[k] != '\n'
    {
      assert s[k] == digest[k - |x| - 1] && digest[k - |x| - 1] in digest;
    }
  }

  /** Where one id is longer, it has swallowed at least the other claim's configuration digest. */
  lemma LongerIDSwallowsADigest(a: ClaimRequest, b: ClaimRequest, h: Hash)
    requires OneDigest(h, a, b) && |a.enrollmentID| < |b.enrollmentID|
    ensures |b.enrollmentID| >= |a.enrollmentID| + 72
  {
    SameHead(a, b, h);
    ShapedTail(a, h);
    var t := TailFields(a, h);
    assert Lines(t) == a.configurationDigest + ['\n'] + Lines(t[1..]);
    SeparatorSkipsDigest(a.enrollmentID, a.configurationDigest, Lines(t[1..]),
                         b.enrollmentID, Lines(TailFields(b, h)));
  }

  /** Among claims with enrollment ids up to this length, one digest means one claim. */
  ghost predicate BindsUpTo(h: Hash, length: nat) {
    forall a, b | OneDigest(h, a, b) && |a.enrollmentID| <= length && |b.enrollmentID| <= length :: SameClaim(a, b)
  }

  /** What SHA-256 gives: a digest of the usual form for every text. */
  ghost predicate GivesDigests(h: Hash) {
    forall t :: ValidSHA256(h.ofText(t))
  }

  /** A claim to pair, with one digest in all its digest fields. */
  function PairClaim(h: Hash, id: string, digest: string, secret: string, instance: string): ClaimRequest {
    var r := ClaimRequest(1, PURPOSE_CONTROL_AGENT, ACTION_PAIR, id, digest, secret, "", digest, "csr", Some(instance));
    r.(requestDigest := ExpectedRequestDigest(r, h))
  }

  lemma PairClaimIsShaped(h: Hash, id: string, digest: string, secret: string, instance: string)
    requires GivesDigests(h) && id != "" && ValidSHA256(digest) && Canonical(RawURLEncoding, secret, 32)
    requires !Blank(instance)
    ensures ValidClaimShape(PairClaim(h, id, digest, secret, instance), h).None?
  {
    var r := PairClaim(h, id, digest, secret, instance);
    assert ClaimFields(r, h) == ClaimFields(r.(requestDigest := ""), h);
  }

  lemma SomeSecret() returns (secret: string)
    ensures Canonical(RawURLEncoding, secret, 32)
  {
    var raw: seq<byte> := seq(32, _ => 0);
    secret := Encode(RawURLEncoding, raw);
    CanonicalIsImage(RawURLEncoding, secret, 32);
  }

  /** Two different well-shaped claims with one digest, for any hash at all: the second id ends with
      the first claim's configuration digest, and every later field moves up by one line. */
  lemma LineFeedsBreakTheBinding(h: Hash) returns (a: ClaimRequest, b: ClaimRequest)
    requires GivesDigests(h)
    ensures OneDigest(h, a, b) && |a.enrollmentID| == 1 && |b.enrollmentID| == 73 && !SameClaim(a, b)
  {
    var d := h.ofText("csr");
    var secret := SomeSecret();
    var longer := d + ['\n'] + "i";
    a := PairClaim(h, "e", d, secret, longer);
    b := PairClaim(h, "e" + ['\n'] + d, d, secret, "i");
    assert longer[|d| + 1] == 'i' && !IsSpace('i');
    assert "i"[0] == 'i';
    PairClaimIsShaped(h, "e", d, secret, longer);
    PairClaimIsShaped(h, "e" + ['\n'] + d, d, secret, "i");
    ShiftedPreimage(a, b, h, d);
  }

  lemma ShiftedPreimage(a: ClaimRequest, b: ClaimRequest, h: Hash, d: string)
    requires a.configurationDigest == a.keyFingerprint == h.ofText(a.csrPEM) == d
    requires a.enrollmentID == "e" && a.instanceID == Some(d + ['\n'] + "i")
    requires b.configurationDigest == b.keyFingerprint == h.ofText(b.csrPEM) == d
    requires b.enrollmentID == "e" + ['\n'] + d && b.instanceID == Some("i")
    requires a.purpose == b.purpose && a.action == b.action
    ensures Lines(ClaimFields(a, h)) == Lines(ClaimFields(b, h))
  {
    ClaimLines(a, h);
    ClaimLines(b, h);
    FourLines(d, d, d, d + ['\n'] + "i");
    FourLines(d, d, d, "i");
    assert "e" + ['\n'] + (d + ['\n'] + (d + ['\n'] + (d + ['\n'] + (d + ['\n'] + "i"))))
           == ("e" + ['\n'] + d) + ['\n'] + (d + ['\n'] + (d + ['\n'] + (d + ['\n'] + "i")));
  }

  /** The digest binds the claim for all enrollment ids up to a length exactly when that length is at
      most 72, whatever the hash. */
  lemma BindingHoldsExactlyUpTo72(h: Hash, length: nat)
    requires GivesDigests(h)
    ensures BindsUpTo(h, length) <==> length <= 72
  {
    if length <= 72 {
      forall a, b | OneDigest(h, a, b) && |a.enrollmentID| <= length && |b.enrollmentID| <= length
        ensures SameClaim(a, b)
      {
        ShortIDsBind(a, b, h);
      }
    } else {
      var a, b := LineFeedsBreakTheBinding(h);
    }
  }

  lemma ShortIDsBind(a: ClaimRequest, b: ClaimRequest, h: Hash)
    ensures OneDigest(h, a, b) && |a.enrollmentID| <= 72 && |b.enrollmentID| <= 72 ==> SameClaim(a, b)
  {
    if OneDigest(h, a, b) && |a.enrollmentID| <= 72 && |b.enrollmentID| <= 72 {
      if |a.enrollmentID| < |b.enrollmentID| {
        LongerIDSwallowsADigest(a, b, h);
      } else if |b.enrollmentID| < |a.enrollmentID| {
        LongerIDSwallowsADigest(b, a, h);
      }
      DigestBindsTheClaim(a, b, h);
    }
  }

  /** A hash of the right form that tells texts apart by their length. */
  function LengthHash(): Hash {
    Hash((t: string) => "sha256:" + seq(64, _ => '0' + (|t| % 10) as char),
         (raw: seq<byte>) => "sha256:" + seq(64, _ => '0' + (|raw| % 10) as char))
  }

  /** What the lemmas above assume of the hash and of two claims can be met. */
  lemma TheAssumptionsCanBeMet() returns (a: ClaimRequest, b: ClaimRequest)
    ensures GivesDigests(LengthHash())
    ensures OneDigest(LengthHash(), a, b) && !SameClaim(a, b)
  {
    LengthHashGivesDigests();
    a, b := LineFeedsBreakTheBinding(LengthHash());
  }

  lemma LengthHashGivesDigests()
    ensures GivesDigests(LengthHash())
  {
    forall t
      ensures ValidSHA256(LengthHash().ofText(t))
    {
      var value := LengthHash().ofText(t);
      assert value[..7] == "sha256:";
    }
  }

  lemma FourLines(w: string, x: string, y: string, z: string)
    ensures Lines([w, x, y, z]) == w + ['\n'] + (x + ['\n'] + (y + ['\n'] + z))
  {
    LinesPrepend(y, [z]);
    TwoLinesBefore(w, x, [y] + [z]);
    assert [w, x, y, z] == [w, x] + ([y] + [z]);
  }

  // ---------- secrets and pairing codes ----------

  /** A secret's digest exists for exactly one spelling of each 32-byte string, and two secrets share
      one only if the hash collides on what they stand for. */
  lemma OneSpellingPerSecret(s: string, t: string, h: Hash)
    ensures SecretDigest(s, h).Some? <==> exists raw: seq<byte> :: |raw| == 32 && s == Encode(RawURLEncoding, raw)
    ensures SecretDigest(s, h).Some? && SecretDigest(s, h) == SecretDigest(t, h) ==>
      var raw, other := Decode(RawURLEncoding, s).value, Decode(RawURLEncoding, t).value;
      h.ofBytes(raw) == h.ofBytes(other) && (raw == other <==> s == t)
  {
    CanonicalIsImage(RawURLEncoding, s, 32);
    if SecretDigest(s, h).Some? && SecretDigest(s, h) == SecretDigest(t, h) {
      var raw, other := Decode(RawURLEncoding, s).value, Decode(RawURLEncoding, t).value;
      assert s == Encode(RawURLEncoding, raw) && t == Encode(RawURLEncoding, other);
    }
  }

  /** The eight lines whose hash the digest is. */
  lemma DigestPreimage(r: ClaimRequest, h: Hash)
    ensures ExpectedRequestDigest(r, h) == h.ofText(
      "starry-pairing-claim-v1" + ['\n'] + (r.purpose + ['\n'] + (r.action + ['\n'] + (r.enrollmentID + ['\n']
      + (r.configurationDigest + ['\n'] + (r.keyFingerprint + ['\n'] + (h.ofText(r.csrPEM) + ['\n']
      + InstanceText(r))))))))
    ensures InstanceText(r) == if r.instanceID.Some? then r.instanceID.value else ""
  {
    ClaimLines(r, h);
    FourLines(r.configurationDigest, r.keyFingerprint, h.ofText(r.csrPEM), InstanceText(r));
  }

  datatype PairingCodePayload = PairingCodePayload(
    version: int, purpose: string, brokerOrigin: string, brokerSPKISHA256: string, enrollmentID: string,
    configurationDigest: string, expiresAtUnix: int, secret: string)

  /** PairingCodePayload.Encode; json is the compact encoding of the payload. */
  function EncodeCode(p: PairingCodePayload, json: PairingCodePayload -> seq<byte>): Result<string, Error> {
    if p.version != 1 || !ValidPurpose(p.purpose) || !ValidSHA256(p.brokerSPKISHA256)
       || !ValidSHA256(p.configurationDigest) then Err(InvalidPayload)
    else
      var secret := Decode(RawURLEncoding, p.secret);
      if secret.None? || |secret.value| != 32 || p.expiresAtUnix < 1 then Err(InvalidPayload)
      else Ok("SP1." + Encode(RawURLEncoding, json(p)))
  }

  /** Exactly the payloads of version 1, of a known purpose, with both digests, a secret of 32 bytes and
      a deadline after the epoch have a code; what it starts with names the version. */
  lemma EncodesExactly(p: PairingCodePayload, json: PairingCodePayload -> seq<byte>)
    ensures EncodeCode(p, json).Ok? <==>
      && p.version == 1 && (p.purpose == "control-agent" || p.purpose == "relay")
      && ValidSHA256(p.brokerSPKISHA256) && ValidSHA256(p.configurationDigest) && p.expiresAtUnix >= 1
      && exists raw :: Decode(RawURLEncoding, p.secret) == Some(raw) && |raw| == 32
    ensures !EncodeCode(p, json).Ok? ==> EncodeCode(p, json) == Err(InvalidPayload)
  {
  }

  /** A claim is well shaped exactly if its purpose and action go together, its digests are spelled as
      digests, its CSR has 1 to 32768 bytes, its secret is the spelling of 32 bytes, a control agent and
      no relay names its instance, and the digest is that of the claim. */
  lemma ShapedExactly(r: ClaimRequest, h: Hash)
    ensures ValidClaimShape(r, h).None? <==>
      && r.version == 1
      && ((r.purpose == "control-agent" && (r.action == "pair" || r.action == "adopt" || r.action == "rotate"))
          || (r.purpose == "relay" && r.action == "enroll"))
      && r.enrollmentID != "" && ValidSHA256(r.configurationDigest) && ValidSHA256(r.requestDigest)
      && ValidSHA256(r.keyFingerprint) && 1 <= |r.csrPEM| <= 32768
      && (exists raw: seq<byte> :: |raw| == 32 && r.secret == Encode(RawURLEncoding, raw))
      && (r.purpose == "relay" <==> r.instanceID.None?)
      && (r.instanceID.Some? ==> !Blank(r.instanceID.value))
      && r.requestDigest == ExpectedRequestDigest(r, h)
  {
    CanonicalIsImage(RawURLEncoding, r.secret, 32);
  }

  /** The payload's text is read back from its code, so two payloads with one code have one text. */
  lemma CodeRoundTrip(p: PairingCodePayload, q: PairingCodePayload, json: PairingCodePayload -> seq<byte>)
    requires EncodeCode(p, json).Ok?
    ensures var code := EncodeCode(p, json).value;
      code[..4] == "SP1." && Decode(RawURLEncoding, code[4..]) == Some(json(p))
    ensures EncodeCode(q, json) == EncodeCode(p, json) ==> json(q) == json(p)
  {
    RoundTrip(RawURLEncoding, json(p));
    RoundTrip(RawURLEncoding, json(q));
    if EncodeCode(q, json) == EncodeCode(p, json) {
      assert EncodeCode(p, json).value[4..] == Encode(RawURLEncoding, json(p));
      assert EncodeCode(q, json).value[4..] == Encode(RawURLEncoding, json(q));
    }
  }

  /** Encode skips the re-encoding check: every secret the registry accepts can be put in a code, but
      the same secret with a line break goes into a code too, and then no claim can use it. */
  lemma CodesAcceptUnusableSecrets(p: PairingCodePayload, json: PairingCodePayload -> seq<byte>, h: Hash)
    requires EncodeCode(p, json).Ok?
    ensures EncodeCode(p.(secret := p.secret + ['\n']), json).Ok?
    ensures SecretDigest(p.secret + ['\n'], h).None?
    ensures SecretDigest(p.secret, h).Some? <==>
      Encode(RawURLEncoding, Decode(RawURLEncoding, p.secret).value) == p.secret
  {
    var s := p.secret + ['\n'];
    LineBreaksAreSkipped(RawURLEncoding, p.secret, '\n', []);
    assert p.secret + ['\n'] + [] == s && p.secret + [] == p.secret;
    EncodesOneLine(RawURLEncoding, Decode(RawURLEncoding, s).value);
    assert s[|p.secret|] == '\n';
  }
}
