/**
 * Revocation checking: one OCSP attempt, then the certificate's CRLs in order, under a
 * policy, with a cache whose contents may be anything. Network answers, parsing and
 * signature verification are parameters of a World.
 */
module Revocation {
  import opened Options
  import opened ByteStrings
  import opened Certificates
  import opened ChainBuilder
  import opened Hex

  // ----- What the outside world delivers -----

  datatype CertStatus = GoodStatus | RevokedStatus(at: int, reason: Option<string>) | UnknownStatus

  datatype SingleResponse = SingleResponse(serial: Bytes, thisUpdate: int, status: CertStatus)

  /** A certificate embedded in an OCSP response, with its extended key usages if it states any. */
  datatype Embedded = Embedded(cert: Cert, usages: Option<seq<string>>)

  datatype OcspResponse = OcspResponse(id: int, responses: seq<SingleResponse>, certs: seq<Embedded>)

  datatype RevokedEntry = RevokedEntry(serial: Bytes, at: int)

  datatype Crl = Crl(id: int, nextUpdate: Option<int>, revoked: seq<RevokedEntry>)

  type CacheMap = map<string, Bytes>

  datatype World = World(
    keyHash: Cert -> Bytes,
    postOcsp: (string, Cert, Cert) -> Option<OcspResponse>,
    parseOcsp: Bytes -> Option<OcspResponse>,
    serializeOcsp: OcspResponse -> Bytes,
    ocspSigned: (OcspResponse, Cert) -> bool,
    getCrl: string -> Option<Bytes>,
    parseCrl: Bytes -> Option<Crl>,
    crlSigned: (Crl, Cert) -> bool,
    responderPolicy: Policy)

  datatype Hints = Hints(ocspUrl: Option<string>, crlUrls: seq<string>)

  datatype RevocationPolicy = Skip | Prefer | Require

  datatype Status = Good | Revoked | Unknown

  datatype Source = Ocsp | CrlList | NoSource

  datatype Verdict = Verdict(status: Status, source: Source, revokedAt: Option<int>, reason: Option<string>)

  /** Raised stands for the RevocationCheckFailedError. */
  datatype Answer = Answered(verdict: Verdict) | Raised

  const MAX_RESPONSE_AGE_MS := 7 * 24 * 3600 * 1000

  const OCSP_SIGNING := "1.3.6.1.5.5.7.3.9"

  // ----- Serial numbers -----

  predicate SameSerial(serial: Bytes, subject: Cert) {
    NormalizeHexUnsignedInt(BytesToHex(serial)) == NormalizeHexUnsignedInt(subject.serialNumber)
  }

  /** Serials are compared as integers, whatever their padding, case or separators. */
  lemma SameSerialIsSameInteger(serial: Bytes, subject: Cert)
    ensures SameSerial(serial, subject) <==>
      Uint(serial) == ValueOf(Clean(subject.serialNumber)) && (serial == [] <==> Clean(subject.serialNumber) == "")
  {
    HexOfBytesValue(serial);
    NormalizeIsCanonical(BytesToHex(serial), subject.serialNumber);
  }

  // ----- OCSP -----

  predicate IsResponder(c: Embedded) {
    c.usages.Some? && OCSP_SIGNING in c.usages.value
  }

  /** The embedded certificate is a designated responder of the issuer and signed the response. */
  ghost predicate ResponderSigned(w: World, r: OcspResponse, c: Embedded, issuer: Cert) {
    && c.usages.Some? && "1.3.6.1.5.5.7.3.9" in c.usages.value
    && SearchOutcome(w.responderPolicy, c.cert, [issuer], []).Built?
    && w.ocspSigned(r, c.cert)
  }

  ghost predicate OcspVerified(w: World, r: OcspResponse, issuer: Cert) {
    w.ocspSigned(r, issuer) || exists i :: 0 <= i < |r.certs| && ResponderSigned(w, r, r.certs[i], issuer)
  }

  datatype SignatureCheck = Verified | NoCandidates | NotAResponder | NoCandidateFits

  /** Without intermediates the climb always returns. */
  lemma DirectSearchReturns(pol: Policy, leaf: Cert, anchor: Cert)
    ensures !SearchOutcome(pol, leaf, [anchor], []).Unfinished?
  {
  }

  /** A candidate that chains to the issuer is the issuer's own certificate or was certified by the issuer. */
  lemma ResponderIsIssuedByIssuer(w: World, r: OcspResponse, c: Embedded, issuer: Cert)
    requires ResponderSigned(w, r, c, issuer)
    ensures c.cert.der == issuer.der ||
      (c.cert.issuer == issuer.subject && Certifies(w.responderPolicy, issuer, c.cert))
  {
    var pol := w.responderPolicy;
    SearchIsSound(pol, c.cert, [issuer], []);
    var path := SearchOutcome(pol, c.cert, [issuer], []).chain;
    assert ValidPath(pol, c.cert, issuer, [], path);
    if |path| > 1 {
      assert Link(pol, path, 1);
    }
  }

  method VerifyResponse(w: World, r: OcspResponse, issuer: Cert) returns (check: SignatureCheck)
    ensures check == Verified <==> OcspVerified(w, r, issuer)
    ensures check == NoCandidates <==> !OcspVerified(w, r, issuer) && r.certs == []
    ensures check == NotAResponder <==>
      !OcspVerified(w, r, issuer) && exists i ::
        0 <= i < |r.certs| && !(r.certs[i].usages.Some? && "1.3.6.1.5.5.7.3.9" in r.certs[i].usages.value)
  {
    if w.ocspSigned(r, issuer) {
      return Verified;
    }
    if |r.certs| == 0 {
      return NoCandidates;
    }
    var sawNonResponderCandidate := false;
    for i := 0 to |r.certs|
      invariant forall k :: 0 <= k < i ==> !ResponderSigned(w, r, r.certs[k], issuer)
      invariant sawNonResponderCandidate <==> exists k :: 0 <= k < i && !IsResponder(r.certs[k])
    {
      var candidate := r.certs[i];
      if !IsResponder(candidate) {
        sawNonResponderCandidate := true;
      } else {
        DirectSearchReturns(w.responderPolicy, candidate.cert, issuer);
        var built := Build(w.responderPolicy, candidate.cert, [issuer], []);
        if built.Built? && w.ocspSigned(r, candidate.cert) {
          assert ResponderSigned(w, r, r.certs[i], issuer);
          return Verified;
        }
      }
    }
    check := if sawNonResponderCandidate then NotAResponder else NoCandidateFits;
  }

  /** Position of the first element with property p, or -1. */
  function FirstIndex<T>(s: seq<T>, p: T -> bool): (i: int)
    ensures -1 <= i < |s|
    ensures i >= 0 ==> p(s[i])
  {
    if s == [] then -1
    else if p(s[0]) then 0
    else
      var i := FirstIndex(s[1..], p);
      if i == -1 then -1 else i + 1
  }

  lemma {:induction false} FirstIndexIsFirst<T>(s: seq<T>, p: T -> bool)
    ensures forall j :: 0 <= j < |s| && (FirstIndex(s, p) == -1 || j < FirstIndex(s, p)) ==> !p(s[j])
  {
    if s != [] && !p(s[0]) {
      FirstIndexIsFirst(s[1..], p);
      assert forall j :: 0 < j < |s| ==> s[j] == s[1..][j - 1];
    }
  }

  /** Position of the first entry for the subject, or -1. */
  function FindEntry(responses: seq<SingleResponse>, subject: Cert): (i: int)
    ensures -1 <= i < |responses|
    ensures i >= 0 ==> SameSerial(responses[i].serial, subject)
  {
    FirstIndex(responses, (r: SingleResponse) => SameSerial(r.serial, subject))
  }

  function VerdictOf(status: CertStatus): Verdict {
    match status
    case GoodStatus => Verdict(Good, Ocsp, None, None)
    case RevokedStatus(at, reason) => Verdict(Revoked, Ocsp, Some(at), reason)
    case UnknownStatus => Verdict(Unknown, Ocsp, None, None)
  }

  /** None where the original throws: no entry for the subject, or a stale one. */
  function ExtractVerdict(r: OcspResponse, subject: Cert, now: int): Option<Verdict> {
    var i := FindEntry(r.responses, subject);
    if i == -1 || now - r.responses[i].thisUpdate > MAX_RESPONSE_AGE_MS then None
    else Some(VerdictOf(r.responses[i].status))
  }

  function OcspKey(w: World, subject: Cert, issuer: Cert): string {
    "ocsp:" + BytesToHex(w.keyHash(issuer)) + ":" + Upper(subject.serialNumber)
  }

  function Upper(s: string): string {
    seq(|s|, i requires 0 <= i < |s| => if 'a' <= s[i] <= 'z' then s[i] - 'a' + 'A' else s[i])
  }

  /** The response the OCSP step works on: the cached one when the key is cached, else the network's. */
  function OcspInput(w: World, cache: Option<CacheMap>, subject: Cert, issuer: Cert,
                     url: string): Option<OcspResponse> {
    var key := OcspKey(w, subject, issuer);
    if cache.Some? && key in cache.value then w.parseOcsp(cache.value[key]) else w.postOcsp(url, subject, issuer)
  }

  ghost function OcspVerdict(w: World, cache: Option<CacheMap>, subject: Cert, issuer: Cert, url: string,
                             now: int): Option<Verdict> {
    var input := OcspInput(w, cache, subject, issuer, url);
    if input.Some? && OcspVerified(w, input.value, issuer) then ExtractVerdict(input.value, subject, now) else None
  }

  // ----- CRLs -----

  function CrlKey(url: string): string {
    "crl:" + url
  }

  /** A parsed list is usable only with a next update. */
  function ParseUsable(w: World, der: Bytes): Option<Crl> {
    match w.parseCrl(der)
    case Some(crl) => if crl.nextUpdate.Some? then Some(crl) else None
    case None => None
  }

  function CrlInput(w: World, cache: Option<CacheMap>, url: string): (r: Option<Crl>)
    ensures r.Some? ==> r.value.nextUpdate.Some?
  {
    if cache.Some? && CrlKey(url) in cache.value then ParseUsable(w, cache.value[CrlKey(url)])
    else match w.getCrl(url)
      case Some(der) => ParseUsable(w, der)
      case None => None
  }

  /** The list at url, when it parses and its signature verifies under the issuer. */
  function VerifiedCrl(w: World, cache: Option<CacheMap>, url: string, issuer: Cert): (r: Option<Crl>)
    ensures r.Some? ==> r.value.nextUpdate.Some? && w.crlSigned(r.value, issuer)
  {
    match CrlInput(w, cache, url)
    case Some(crl) => if w.crlSigned(crl, issuer) then Some(crl) else None
    case None => None
  }

  predicate Stale(crl: Crl, now: int) {
    crl.nextUpdate.Some? && now > crl.nextUpdate.value
  }

  /** Position of the first entry that lists the subject, or -1. */
  function FindRevoked(revoked: seq<RevokedEntry>, subject: Cert): (i: int)
    ensures -1 <= i < |revoked|
    ensures i >= 0 ==> SameSerial(revoked[i].serial, subject)
  {
    FirstIndex(revoked, (r: RevokedEntry) => SameSerial(r.serial, subject))
  }

  function CrlVerdict(crl: Crl, subject: Cert): Verdict {
    var i := FindRevoked(crl.revoked, subject);
    if i == -1 then Verdict(Good, CrlList, None, None) else Verdict(Revoked, CrlList, Some(crl.revoked[i].at), None)
  }

  // ----- The decision -----

  const UNKNOWN: Verdict := Verdict(Unknown, NoSource, None, None)

  ghost function CrlDecision(w: World, policy: RevocationPolicy, cache: Option<CacheMap>,
                             subject: Cert, issuer: Cert, urls: seq<string>, now: int): Answer {
    if urls == [] then if policy == Require then Raised else Answered(UNKNOWN)
    else match VerifiedCrl(w, cache, urls[0], issuer)
      case None => CrlDecision(w, policy, cache, subject, issuer, urls[1..], now)
      case Some(crl) =>
        if !Stale(crl, now) then Answered(CrlVerdict(crl, subject))
        else if policy == Require then Raised
        else CrlDecision(w, policy, cache, subject, issuer, urls[1..], now)
  }

  ghost function Decision(w: World, policy: RevocationPolicy, cache: Option<CacheMap>,
                          subject: Cert, issuer: Cert, hints: Hints, now: int): Answer {
    if policy == Skip then Answered(Verdict(Good, NoSource, None, None))
    else if hints.ocspUrl.Some? && OcspVerdict(w, cache, subject, issuer, hints.ocspUrl.value, now).Some?
    then Answered(OcspVerdict(w, cache, subject, issuer, hints.ocspUrl.value, now).value)
    else CrlDecision(w, policy, cache, subject, issuer, hints.crlUrls, now)
  }

  /** Storing what was just fetched changes no later answer about CRLs. */
  ghost predicate SameCrls(w: World, cache: Option<CacheMap>, cache': Option<CacheMap>) {
    forall url :: CrlInput(w, cache, url) == CrlInput(w, cache', url)
  }

  lemma {:induction false} SameCrlsSameDecision(w: World, policy: RevocationPolicy,
                                                cache: Option<CacheMap>, cache': Option<CacheMap>,
                                                subject: Cert, issuer: Cert, urls: seq<string>, now: int)
    requires SameCrls(w, cache, cache')
    ensures CrlDecision(w, policy, cache, subject, issuer, urls, now) ==
      CrlDecision(w, policy, cache', subject, issuer, urls, now)
  {
    if urls != [] {
      assert CrlInput(w, cache, urls[0]) == CrlInput(w, cache', urls[0]);
      SameCrlsSameDecision(w, policy, cache, cache', subject, issuer, urls[1..], now);
    }
  }

  class RevocationChecker {
    const policy: RevocationPolicy
    const world: World
    var cache: Option<CacheMap>
    /** The URLs requested over the network so far. */
    var requests: seq<string>

    constructor (policy: RevocationPolicy, world: World, cache: Option<CacheMap>)
      ensures this.policy == policy && this.world == world && this.cache == cache && requests == []
    {
      this.policy, this.world, this.cache := policy, world, cache;
      requests := [];
    }

    method Store(key: string, value: Bytes)
      modifies `cache
      ensures cache == if old(cache).Some? then Some(old(cache).value[key := value]) else None
    {
      if cache.Some? {
        cache := Some(cache.value[key := value]);
      }
    }

    method CheckOcspCached(subject: Cert, issuer: Cert, url: string, now: int) returns (r: Option<Verdict>)
      modifies this
      ensures r == OcspVerdict(world, old(cache), subject, issuer, url, now)
      ensures SameCrls(world, old(cache), cache)
      ensures requests == old(requests) +
        if old(cache).Some? && OcspKey(world, subject, issuer) in old(cache).value then [] else [url]
      ensures cache == old(cache) || StoresVerified(old(cache), cache, subject, issuer, url, r)
    {
      var key := OcspKey(world, subject, issuer);
      OcspKeysAreNotCrlKeys(world, subject, issuer);
      if cache.Some? && key in cache.value {
        var hit := world.parseOcsp(cache.value[key]);
        if hit.None? {
          return None;
        }
        var check := VerifyResponse(world, hit.value, issuer);
        r := if check == Verified then ExtractVerdict(hit.value, subject, now) else None;
        return;
      }
      requests := requests + [url];
      var fetched := world.postOcsp(url, subject, issuer);
      if fetched.None? {
        return None;
      }
      var check := VerifyResponse(world, fetched.value, issuer);
      if check != Verified {
        return None;
      }
      r := ExtractVerdict(fetched.value, subject, now);
      if r.Some? {
        Store(key, world.serializeOcsp(fetched.value));
      }
    }

    /** The cache gained, under the certificate's key, the fetched response, which verified and gave the verdict. */
    ghost predicate StoresVerified(before: Option<CacheMap>, after: Option<CacheMap>, subject: Cert, issuer: Cert,
                                   url: string, r: Option<Verdict>)
    {
      && r.Some? && before.Some?
      && exists response :: world.postOcsp(url, subject, issuer) == Some(response) &&
           OcspVerified(world, response, issuer) &&
           after == Some(before.value[OcspKey(world, subject, issuer) := world.serializeOcsp(response)])
    }

    method FetchCrlCached(url: string) returns (r: Option<Crl>)
      modifies this
      ensures requests == old(requests) + if old(cache).Some? && "crl:" + url in old(cache).value then [] else [url]
      ensures cache == old(cache) || (old(cache).Some? && world.getCrl(url).Some? &&
        cache == Some(old(cache).value["crl:" + url := world.getCrl(url).value]))
      ensures r == CrlInput(world, old(cache), url)
      ensures SameCrls(world, old(cache), cache)
    {
      if cache.Some? && CrlKey(url) in cache.value {
        r := ParseUsable(world, cache.value[CrlKey(url)]);
        return;
      }
      requests := requests + [url];
      var der := world.getCrl(url);
      if der.None? {
        return None;
      }
      r := ParseUsable(world, der.value);
      if r.Some? {
        CrlKeysAreDistinct();
        Store(CrlKey(url), der.value);
      }
    }

    method Check(subject: Cert, issuer: Cert, hints: Hints, now: int) returns (r: Answer)
      modifies this
      ensures r == Decision(world, policy, old(cache), subject, issuer, hints, now)
      ensures policy == Skip ==> requests == old(requests) && cache == old(cache)
    {
      if policy == Skip {
        return Answered(Verdict(Good, NoSource, None, None));
      }
      if hints.ocspUrl.None? && |hints.crlUrls| == 0 {
        return if policy == Require then Raised else Answered(UNKNOWN);
      }
      if hints.ocspUrl.Some? {
        var verdict := CheckOcspCached(subject, issuer, hints.ocspUrl.value, now);
        if verdict.Some? {
          return Answered(verdict.value);
        }
      }
      SameCrlsSameDecision(world, policy, old(cache), cache, subject, issuer, hints.crlUrls, now);
      r := CheckCrls(subject, issuer, hints.crlUrls, now);
    }

    /** The CRL fallback loop. */
    method CheckCrls(subject: Cert, issuer: Cert, urls: seq<string>, now: int) returns (r: Answer)
      modifies this
      ensures r == CrlDecision(world, policy, old(cache), subject, issuer, urls, now)
    {
      for i := 0 to |urls|
        invariant SameCrls(world, old(cache), cache)
        invariant CrlDecision(world, policy, old(cache), subject, issuer, urls, now)
               == CrlDecision(world, policy, old(cache), subject, issuer, urls[i..], now)
      {
        assert urls[i..][0] == urls[i] && urls[i..][1..] == urls[i + 1..];
        assert CrlInput(world, old(cache), urls[i]) == CrlInput(world, cache, urls[i]);
        var crl := FetchCrlCached(urls[i]);
        if crl.Some? && world.crlSigned(crl.value, issuer) {
          if Stale(crl.value, now) {
            if policy == Require {
              return Raised;
            }
          } else {
            return Answered(CrlVerdict(crl.value, subject));
          }
        }
      }
      r := if policy == Require then Raised else Answered(UNKNOWN);
    }
  }

  lemma OcspKeysAreNotCrlKeys(w: World, subject: Cert, issuer: Cert)
    ensures forall url :: CrlKey(url) != OcspKey(w, subject, issuer)
  {
    forall url
      ensures CrlKey(url) != OcspKey(w, subject, issuer)
    {
      assert CrlKey(url)[0] == 'c' && OcspKey(w, subject, issuer)[0] == 'o';
    }
  }

  lemma CrlKeysAreDistinct()
    ensures forall a, b :: CrlKey(a) == CrlKey(b) ==> a == b
  {
    forall a, b | CrlKey(a) == CrlKey(b)
      ensures a == b
    {
      assert a == CrlKey(a)[4..] && b == CrlKey(b)[4..];
    }
  }

  // ----- What a decision rests on -----

  /** The integers are equal; the serial number of a certificate always has digits. */
  predicate SameInteger(serial: Bytes, subject: Cert) {
    serial != [] && Uint(serial) == ValueOf(Clean(subject.serialNumber))
  }

  lemma SerialsAreIntegers(subject: Cert)
    requires Clean(subject.serialNumber) != ""
    ensures forall serial :: SameSerial(serial, subject) <==> SameInteger(serial, subject)
  {
    forall serial
      ensures SameSerial(serial, subject) <==> SameInteger(serial, subject)
    {
      SameSerialIsSameInteger(serial, subject);
    }
  }

  // The OCSP answer.

  /** v is what the status says, field by field. */
  ghost predicate Reports(v: Verdict, status: CertStatus) {
    && v.source == Ocsp
    && match status
       case GoodStatus => v.status == Good && v.revokedAt == None && v.reason == None
       case RevokedStatus(at, reason) => v.status == Revoked && v.revokedAt == Some(at) && v.reason == reason
       case UnknownStatus => v.status == Unknown && v.revokedAt == None && v.reason == None
  }

  /** responses[i] is the first for the serial integer, is at most seven days old, and says v. */
  ghost predicate FirstTestimony(responses: seq<SingleResponse>, i: nat, subject: Cert, now: int, v: Verdict) {
    && i < |responses| && SameInteger(responses[i].serial, subject)
    && (forall k :: 0 <= k < i ==> !SameInteger(responses[k].serial, subject))
    && now - responses[i].thisUpdate <= 604_800_000 && Reports(v, responses[i].status)
  }

  /** r is the response cached for the certificate, when there is one, or else the network's. */
  ghost predicate Served(w: World, cache: Option<CacheMap>, subject: Cert, issuer: Cert, url: string, r: OcspResponse) {
    var key := "ocsp:" + BytesToHex(w.keyHash(issuer)) + ":" + Upper(subject.serialNumber);
    if cache.Some? && key in cache.value then w.parseOcsp(cache.value[key]) == Some(r)
    else w.postOcsp(url, subject, issuer) == Some(r)
  }

  /** The response served verifies under the issuer, and its first entry for the subject is recent and says v. */
  ghost predicate OcspAnswers(w: World, cache: Option<CacheMap>, subject: Cert, issuer: Cert, url: string, now: int,
                              v: Verdict) {
    exists r, i: nat :: Served(w, cache, subject, issuer, url, r) && OcspVerified(w, r, issuer) &&
      FirstTestimony(r.responses, i, subject, now, v)
  }

  /** The extracted verdict is exactly what the first entry for the serial integer says, if that entry is recent. */
  lemma ExtractedVerdictIsFirstTestimony(r: OcspResponse, subject: Cert, now: int, v: Verdict)
    requires Clean(subject.serialNumber) != ""
    ensures ExtractVerdict(r, subject, now) == Some(v) <==>
      exists i: nat :: FirstTestimony(r.responses, i, subject, now, v)
  {
    var found := FindEntry(r.responses, subject);
    SerialsAreIntegers(subject);
    FirstIndexIsFirst(r.responses, (x: SingleResponse) => SameSerial(x.serial, subject));
    if ExtractVerdict(r, subject, now) == Some(v) {
      assert FirstTestimony(r.responses, found, subject, now, v);
    }
    forall i: nat | FirstTestimony(r.responses, i, subject, now, v)
      ensures i == found
    {
    }
  }

  /** The OCSP step has the verdict v exactly when OCSP answers v. */
  lemma OcspVerdictRestsOnEvidence(w: World, cache: Option<CacheMap>, subject: Cert, issuer: Cert, url: string,
                                   now: int, v: Verdict)
    requires Clean(subject.serialNumber) != ""
    ensures OcspVerdict(w, cache, subject, issuer, url, now) == Some(v) <==>
      OcspAnswers(w, cache, subject, issuer, url, now, v)
  {
    var input := OcspInput(w, cache, subject, issuer, url);
    forall r
      ensures Served(w, cache, subject, issuer, url, r) <==> input == Some(r)
    {
    }
    if input.Some? { ExtractedVerdictIsFirstTestimony(input.value, subject, now, v); }
  }

  // The CRL answer.

  /** crl is the list cached for the URL, when there is one, or else the network's; it states a next update. */
  ghost predicate ServedList(w: World, cache: Option<CacheMap>, url: string, crl: Crl) {
    && crl.nextUpdate.Some?
    && exists der :: w.parseCrl(der) == Some(crl) &&
         if cache.Some? && "crl:" + url in cache.value then der == cache.value["crl:" + url]
         else w.getCrl(url) == Some(der)
  }

  /**
   * The list at url verifies under the issuer and settles the matter: under `require` any such list does, else
   * only one whose next update has not passed.
   */
  ghost predicate Settles(w: World, policy: RevocationPolicy, cache: Option<CacheMap>, issuer: Cert, url: string,
                          now: int, crl: Crl) {
    && ServedList(w, cache, url, crl) && w.crlSigned(crl, issuer)
    && (policy == Require || now <= crl.nextUpdate.value)
  }

  ghost predicate FirstToSettle(w: World, policy: RevocationPolicy, cache: Option<CacheMap>, issuer: Cert,
                                urls: seq<string>, now: int, i: nat, crl: Crl) {
    && i < |urls| && Settles(w, policy, cache, issuer, urls[i], now, crl)
    && forall j, c :: 0 <= j < i ==> !Settles(w, policy, cache, issuer, urls[j], now, c)
  }

  ghost predicate FirstListing(crl: Crl, subject: Cert, k: nat) {
    && k < |crl.revoked| && SameInteger(crl.revoked[k].serial, subject)
    && forall j :: 0 <= j < k ==> !SameInteger(crl.revoked[j].serial, subject)
  }

  ghost predicate Lists(crl: Crl, subject: Cert) {
    exists i :: 0 <= i < |crl.revoked| && SameInteger(crl.revoked[i].serial, subject)
  }

  /** v is what the list says: revoked at the date of the first entry for the serial integer, or good without one. */
  ghost predicate ListReports(v: Verdict, crl: Crl, subject: Cert) {
    && v.source == CrlList && v.reason == None
    && if Lists(crl, subject)
       then v.status == Revoked &&
            exists k: nat :: FirstListing(crl, subject, k) && v.revokedAt == Some(crl.revoked[k].at)
       else v.status == Good && v.revokedAt == None
  }

  ghost predicate CrlAnswers(w: World, policy: RevocationPolicy, cache: Option<CacheMap>, subject: Cert, issuer: Cert,
                             urls: seq<string>, now: int, v: Verdict) {
    exists i: nat, crl :: FirstToSettle(w, policy, cache, issuer, urls, now, i, crl) &&
      now <= crl.nextUpdate.value && ListReports(v, crl, subject)
  }

  lemma CrlVerdictIsListing(crl: Crl, subject: Cert, v: Verdict)
    requires Clean(subject.serialNumber) != ""
    ensures CrlVerdict(crl, subject) == v <==> ListReports(v, crl, subject)
  {
    FirstListingFound(crl, subject);
  }

  lemma FirstListingFound(crl: Crl, subject: Cert)
    requires Clean(subject.serialNumber) != ""
    ensures Lists(crl, subject) <==> FindRevoked(crl.revoked, subject) != -1
    ensures forall k: nat :: FirstListing(crl, subject, k) <==> FindRevoked(crl.revoked, subject) == k
  {
    SerialsAreIntegers(subject);
    FirstIndexIsFirst(crl.revoked, (r: RevokedEntry) => SameSerial(r.serial, subject));
    forall i | 0 <= i < |crl.revoked|
      ensures SameSerial(crl.revoked[i].serial, subject) <==> SameInteger(crl.revoked[i].serial, subject)
    {
    }
  }

  lemma SettlesMeans(w: World, policy: RevocationPolicy, cache: Option<CacheMap>, issuer: Cert, url: string,
                     now: int, crl: Crl)
    ensures Settles(w, policy, cache, issuer, url, now, crl) <==>
      VerifiedCrl(w, cache, url, issuer) == Some(crl) && (policy == Require || !Stale(crl, now))
  {
    assert CrlKey(url) == "crl:" + url;
  }

  /** The first list to settle the matter decides. */
  lemma {:induction false} FirstToSettleDecides(w: World, policy: RevocationPolicy, cache: Option<CacheMap>,
                                                subject: Cert, issuer: Cert, urls: seq<string>, now: int,
                                                i: nat, crl: Crl)
    requires FirstToSettle(w, policy, cache, issuer, urls, now, i, crl)
    ensures CrlDecision(w, policy, cache, subject, issuer, urls, now) ==
      if now <= crl.nextUpdate.value then Answered(CrlVerdict(crl, subject)) else Raised
    decreases i
  {
    var here := VerifiedCrl(w, cache, urls[0], issuer);
    if here.Some? { SettlesMeans(w, policy, cache, issuer, urls[0], now, here.value); }
    SettlesMeans(w, policy, cache, issuer, urls[i], now, crl);
    if i > 0 {
      assert forall j :: 0 < j < |urls| ==> urls[j] == urls[1..][j - 1];
      FirstToSettleDecides(w, policy, cache, subject, issuer, urls[1..], now, i - 1, crl);
    }
  }

  /** Either no list settles the matter, and the policy decides, or there is a first one that does. */
  lemma {:induction false} SomeListSettlesOrNone(w: World, policy: RevocationPolicy, cache: Option<CacheMap>,
                                                 subject: Cert, issuer: Cert, urls: seq<string>, now: int)
    returns (settled: bool, i: nat, crl: Crl)
    ensures settled ==> FirstToSettle(w, policy, cache, issuer, urls, now, i, crl)
    ensures !settled ==> forall j, c :: 0 <= j < |urls| ==> !Settles(w, policy, cache, issuer, urls[j], now, c)
    ensures !settled ==>
      CrlDecision(w, policy, cache, subject, issuer, urls, now) ==
        if policy == Require then Raised else Answered(UNKNOWN)
  {
    settled, i, crl := false, 0, Crl(0, None, []);
    if urls != [] {
      var here := VerifiedCrl(w, cache, urls[0], issuer);
      forall c
        ensures Settles(w, policy, cache, issuer, urls[0], now, c) <==>
          here == Some(c) && (policy == Require || !Stale(c, now))
      {
        SettlesMeans(w, policy, cache, issuer, urls[0], now, c);
      }
      assert forall j :: 0 < j < |urls| ==> urls[j] == urls[1..][j - 1];
      if here.Some? && (policy == Require || !Stale(here.value, now)) {
        settled, i, crl := true, 0, here.value;
      } else {
        settled, i, crl := SomeListSettlesOrNone(w, policy, cache, subject, issuer, urls[1..], now);
        i := i + 1;
      }
    }
  }

  ghost predicate NothingSettles(w: World, policy: RevocationPolicy, cache: Option<CacheMap>, issuer: Cert,
                                 urls: seq<string>, now: int) {
    forall j, c :: 0 <= j < |urls| ==> !Settles(w, policy, cache, issuer, urls[j], now, c)
  }

  /**
   * Exactly when the CRL step answers what: the first list to settle the matter, while its next update has not
   * passed, gives the verdict; `require` raises otherwise; without `require` no list leaves the status unknown.
   */
  lemma CrlDecisionMeans(w: World, policy: RevocationPolicy, cache: Option<CacheMap>, subject: Cert, issuer: Cert,
                         urls: seq<string>, now: int, v: Verdict)
    requires Clean(subject.serialNumber) != ""
    ensures var d := CrlDecision(w, policy, cache, subject, issuer, urls, now);
      && (d == Answered(v) && v.source != NoSource <==> CrlAnswers(w, policy, cache, subject, issuer, urls, now, v))
      && (d == Raised <==>
            policy == Require && forall i: nat, crl ::
              FirstToSettle(w, policy, cache, issuer, urls, now, i, crl) ==> crl.nextUpdate.value < now)
      && (d == Answered(UNKNOWN) <==> policy != Require && NothingSettles(w, policy, cache, issuer, urls, now))
      && (d.Answered? ==> d.verdict == UNKNOWN || d.verdict.source == CrlList)
  {
    var settled, i, crl := SomeListSettlesOrNone(w, policy, cache, subject, issuer, urls, now);
    forall k: nat, c | FirstToSettle(w, policy, cache, issuer, urls, now, k, c)
      ensures CrlDecision(w, policy, cache, subject, issuer, urls, now) ==
        if now <= c.nextUpdate.value then Answered(CrlVerdict(c, subject)) else Raised
      ensures CrlVerdict(c, subject) == v <==> ListReports(v, c, subject)
      ensures settled
      ensures now <= c.nextUpdate.value || policy == Require
    {
      FirstToSettleDecides(w, policy, cache, subject, issuer, urls, now, k, c);
      CrlVerdictIsListing(c, subject, v);
    }
  }

  // The decision.

  ghost predicate OcspIsSilent(w: World, cache: Option<CacheMap>, subject: Cert, issuer: Cert, hints: Hints, now: int) {
    hints.ocspUrl.Some? ==> forall v :: !OcspAnswers(w, cache, subject, issuer, hints.ocspUrl.value, now, v)
  }

  /**
   * The whole decision, for any cache contents. `skip` answers good without a source. Otherwise an OCSP answer is
   * given exactly when OCSP answers, a CRL answer exactly when OCSP is silent and the lists answer, no answer but
   * unknown without `require`, and `require` raises instead.
   */
  lemma DecisionRestsOnEvidence(w: World, policy: RevocationPolicy, cache: Option<CacheMap>,
                                subject: Cert, issuer: Cert, hints: Hints, now: int, v: Verdict)
    requires Clean(subject.serialNumber) != ""
    ensures var d, silent := Decision(w, policy, cache, subject, issuer, hints, now),
                             OcspIsSilent(w, cache, subject, issuer, hints, now);
      if policy == Skip then d == Answered(Verdict(Good, NoSource, None, None)) else
        && (d == Answered(v) && v.source == Ocsp <==>
              hints.ocspUrl.Some? && OcspAnswers(w, cache, subject, issuer, hints.ocspUrl.value, now, v))
        && (d == Answered(v) && v.source == CrlList <==>
              silent && CrlAnswers(w, policy, cache, subject, issuer, hints.crlUrls, now, v))
        && (d == Answered(v) && v.source == NoSource <==>
              silent && policy == Prefer && v == Verdict(Unknown, NoSource, None, None) &&
              NothingSettles(w, policy, cache, issuer, hints.crlUrls, now))
        && (d == Raised <==>
              silent && policy == Require && forall i: nat, crl ::
                FirstToSettle(w, policy, cache, issuer, hints.crlUrls, now, i, crl) ==> crl.nextUpdate.value < now)
  {
    CrlDecisionMeans(w, policy, cache, subject, issuer, hints.crlUrls, now, v);
    if hints.ocspUrl.Some? {
      forall u
        ensures OcspVerdict(w, cache, subject, issuer, hints.ocspUrl.value, now) == Some(u) <==>
          OcspAnswers(w, cache, subject, issuer, hints.ocspUrl.value, now, u)
      {
        OcspVerdictRestsOnEvidence(w, cache, subject, issuer, hints.ocspUrl.value, now, u);
      }
    }
  }

  /** A recent revoked entry, first for the serial in a response that verified, is never answered by anything else. */
  lemma RevokedEntryDecides(w: World, policy: RevocationPolicy, cache: Option<CacheMap>, subject: Cert, issuer: Cert,
                            hints: Hints, now: int, r: OcspResponse, i: nat, at: int, reason: Option<string>)
    requires Clean(subject.serialNumber) != "" && policy != Skip && hints.ocspUrl.Some?
    requires Served(w, cache, subject, issuer, hints.ocspUrl.value, r) && OcspVerified(w, r, issuer)
    requires i < |r.responses| && SameInteger(r.responses[i].serial, subject)
    requires forall k :: 0 <= k < i ==> !SameInteger(r.responses[k].serial, subject)
    requires now - r.responses[i].thisUpdate <= 604_800_000 && r.responses[i].status == RevokedStatus(at, reason)
    ensures Decision(w, policy, cache, subject, issuer, hints, now) ==
      Answered(Verdict(Revoked, Ocsp, Some(at), reason))
  {
    var v := Verdict(Revoked, Ocsp, Some(at), reason);
    assert FirstTestimony(r.responses, i, subject, now, v);
    DecisionRestsOnEvidence(w, policy, cache, subject, issuer, hints, now, v);
  }
}
