/**
 * X.509 certificates as the chain builder reads them, and its per-certificate and
 * per-link checks. Signature verification and URL parsing are parameters of a Policy.
 */
module Certificates {
  import opened Options
  import opened ByteStrings
  import opened Names
  import opened NameConstraints

  datatype KeyUsage = KeyUsage(digitalSignature: bool, keyCertSign: bool)

  datatype BasicConstraints = BasicConstraints(ca: bool, pathLength: Option<nat>)

  /** A general name; kinds the builder does not enforce are Unsupported. */
  datatype GeneralName = Supported(name: Name) | Unsupported

  datatype Constraints = Constraints(permitted: seq<GeneralName>, excluded: seq<GeneralName>)

  /** The key identifier of an authority key identifier extension may be absent. */
  datatype Cert = Cert(
    der: Bytes, serialNumber: string, subject: string, issuer: string,
    notBefore: int, notAfter: int, signatureName: string, signatureHash: string,
    keyUsage: Option<KeyUsage>, basic: Option<BasicConstraints>,
    authorityKeyId: Option<Option<string>>, subjectKeyId: Option<string>,
    constraints: Option<Constraints>, altNames: seq<GeneralName>)

  datatype Reason =
    | SignatureFailed | OutsideValidity | AlgorithmDisallowed | NotCa
    | PathTooLong | WrongKeyUsage | KeyIdMismatch | NameNotAllowed

  datatype Policy = Policy(
    now: int, skewMs: nat, allowedAlgorithms: seq<string>,
    verifies: (Cert, Cert) -> bool, hostname: string -> Option<string>)

  // ----- What a link must satisfy -----

  predicate InTime(pol: Policy, c: Cert) {
    c.notBefore <= pol.now + pol.skewMs && pol.now - pol.skewMs <= c.notAfter
  }

  function JwaName(c: Cert): string {
    var name, hash := c.signatureName, c.signatureHash;
    if name == "ECDSA" && hash == "SHA-256" then "ES256"
    else if name == "ECDSA" && hash == "SHA-384" then "ES384"
    else if name == "ECDSA" && hash == "SHA-512" then "ES512"
    else if name == "Ed25519" || name == "EdDSA" then "EdDSA"
    else if name == "RSASSA-PKCS1-v1_5" && hash == "SHA-256" then "RS256"
    else if name == "RSASSA-PKCS1-v1_5" && hash == "SHA-384" then "RS384"
    else if name == "RSASSA-PKCS1-v1_5" && hash == "SHA-512" then "RS512"
    else if name == "RSA-PSS" && hash == "SHA-256" then "PS256"
    else if name == "RSA-PSS" && hash == "SHA-384" then "PS384"
    else if name == "RSA-PSS" && hash == "SHA-512" then "PS512"
    else name + "-" + hash
  }

  predicate Usable(pol: Policy, c: Cert) {
    InTime(pol, c) && JwaName(c) in pol.allowedAlgorithms
  }

  predicate MaySign(leaf: Cert) {
    leaf.keyUsage.Some? ==> leaf.keyUsage.value.digitalSignature
  }

  predicate IsCa(c: Cert) {
    (c.keyUsage.Some? ==> c.keyUsage.value.keyCertSign) && c.basic.Some? && c.basic.value.ca
  }

  /** The certificate allows at least that many CAs between itself and the leaf. */
  predicate AllowsDepth(c: Cert, depth: nat) {
    c.basic.Some? && c.basic.value.pathLength.Some? ==> depth <= c.basic.value.pathLength.value
  }

  predicate KeyIdsConflict(child: Cert, issuer: Cert) {
    match (child.authorityKeyId, issuer.subjectKeyId)
    case (Some(Some(aki)), Some(ski)) => aki != "" && ski != "" && Lower(aki) != Lower(ski)
    case _ => false
  }

  /** issuer vouches for child, path length aside. */
  predicate Certifies(pol: Policy, issuer: Cert, child: Cert) {
    Usable(pol, issuer) && IsCa(issuer) && !KeyIdsConflict(child, issuer) && pol.verifies(child, issuer)
  }

  // ----- The checks in the order the builder throws them -----

  function CheckPerCert(pol: Policy, c: Cert): (r: Option<Reason>)
    ensures r.None? <==> Usable(pol, c)
  {
    if pol.now + pol.skewMs < c.notBefore then Some(OutsideValidity)
    else if pol.now - pol.skewMs > c.notAfter then Some(OutsideValidity)
    else if JwaName(c) !in pol.allowedAlgorithms then Some(AlgorithmDisallowed)
    else None
  }

  function CheckLeafKeyUsage(leaf: Cert): (r: Option<Reason>)
    ensures r.None? <==> MaySign(leaf)
  {
    match leaf.keyUsage
    case None => None
    case Some(usage) => if !usage.digitalSignature then Some(WrongKeyUsage) else None
  }

  function CheckCaAndPathLen(c: Cert, nonLeafDepth: nat): (r: Option<Reason>)
    ensures r.None? <==> IsCa(c) && AllowsDepth(c, nonLeafDepth)
  {
    if c.keyUsage.Some? && !c.keyUsage.value.keyCertSign then Some(WrongKeyUsage)
    else if c.basic.None? || !c.basic.value.ca then Some(NotCa)
    else match c.basic.value.pathLength
      case Some(limit) => if nonLeafDepth > limit then Some(PathTooLong) else None
      case None => None
  }

  function CheckAkiSki(child: Cert, issuer: Cert): (r: Option<Reason>)
    ensures r.None? <==> !KeyIdsConflict(child, issuer)
  {
    if child.authorityKeyId.None? || issuer.subjectKeyId.None? then None
    else
      var aki, ski := child.authorityKeyId.value, issuer.subjectKeyId.value;
      if aki.Some? && aki.value != "" && ski != "" && Lower(aki.value) != Lower(ski) then Some(KeyIdMismatch) else None
  }

  function CheckIssuer(pol: Policy, child: Cert, issuer: Cert, nonLeafDepth: nat): (r: Option<Reason>)
    ensures r.None? <==> Certifies(pol, issuer, child) && AllowsDepth(issuer, nonLeafDepth)
  {
    if CheckPerCert(pol, issuer).Some? then CheckPerCert(pol, issuer)
    else if CheckCaAndPathLen(issuer, nonLeafDepth).Some? then CheckCaAndPathLen(issuer, nonLeafDepth)
    else if CheckAkiSki(child, issuer).Some? then CheckAkiSki(child, issuer)
    else if !pol.verifies(child, issuer) then Some(SignatureFailed)
    else None
  }

  /** Both key identifiers are there, not empty, and differ beyond case. */
  ghost predicate IdentifiersDiffer(child: Cert, issuer: Cert) {
    exists aki, ski :: aki != "" && ski != "" && Lower(aki) != Lower(ski) &&
      child.authorityKeyId == Some(Some(aki)) && issuer.subjectKeyId == Some(ski)
  }

  lemma KeyIdsConflictMeans(child: Cert, issuer: Cert)
    ensures KeyIdsConflict(child, issuer) <==> IdentifiersDiffer(child, issuer)
  {
  }

  /** When a link passes, in the fields of the two certificates, and what each reason for refusing it says of them. */
  lemma IssuerRefusedForCause(pol: Policy, child: Cert, issuer: Cert, depth: nat)
    ensures var r := CheckIssuer(pol, child, issuer, depth);
      && (r.None? <==>
            && issuer.notBefore <= pol.now + pol.skewMs && pol.now - pol.skewMs <= issuer.notAfter
            && JwaName(issuer) in pol.allowedAlgorithms
            && (issuer.keyUsage.Some? ==> issuer.keyUsage.value.keyCertSign)
            && issuer.basic.Some? && issuer.basic.value.ca
            && (issuer.basic.value.pathLength.Some? ==> depth <= issuer.basic.value.pathLength.value)
            && !IdentifiersDiffer(child, issuer) && pol.verifies(child, issuer))
      && (r == Some(OutsideValidity) <==>
            pol.now + pol.skewMs < issuer.notBefore || issuer.notAfter < pol.now - pol.skewMs)
      && (r == Some(AlgorithmDisallowed) ==> JwaName(issuer) !in pol.allowedAlgorithms)
      && (r == Some(WrongKeyUsage) ==> issuer.keyUsage.Some? && !issuer.keyUsage.value.keyCertSign)
      && (r == Some(NotCa) ==> issuer.basic.None? || !issuer.basic.value.ca)
      && (r == Some(PathTooLong) ==>
            issuer.basic.Some? && issuer.basic.value.pathLength.Some? && issuer.basic.value.pathLength.value < depth)
      && (r == Some(KeyIdMismatch) ==> IdentifiersDiffer(child, issuer))
      && (r == Some(SignatureFailed) ==> !pol.verifies(child, issuer))
      && r != Some(NameNotAllowed)
  {
    KeyIdsConflictMeans(child, issuer);
  }

  /** Likewise for the leaf, before the climb. */
  lemma LeafRefusedForCause(pol: Policy, leaf: Cert)
    ensures var r := if CheckPerCert(pol, leaf).Some? then CheckPerCert(pol, leaf) else CheckLeafKeyUsage(leaf);
      && (r.None? <==>
            && leaf.notBefore <= pol.now + pol.skewMs && pol.now - pol.skewMs <= leaf.notAfter
            && JwaName(leaf) in pol.allowedAlgorithms
            && (leaf.keyUsage.Some? ==> leaf.keyUsage.value.digitalSignature))
      && (r == Some(OutsideValidity) <==>
            pol.now + pol.skewMs < leaf.notBefore || leaf.notAfter < pol.now - pol.skewMs)
      && (r == Some(AlgorithmDisallowed) ==> JwaName(leaf) !in pol.allowedAlgorithms)
      && (r == Some(WrongKeyUsage) ==> leaf.keyUsage.Some? && !leaf.keyUsage.value.digitalSignature)
      && r in {None, Some(OutsideValidity), Some(AlgorithmDisallowed), Some(WrongKeyUsage)}
  {
  }

  /** Each algorithm name stands for one scheme and hash; no other pair of names can spell it. */
  lemma AlgorithmNamesAreUnambiguous(c: Cert)
    ensures var scheme, hash, jwa := c.signatureName, c.signatureHash, JwaName(c);
      && (jwa == "ES256" <==> scheme == "ECDSA" && hash == "SHA-256")
      && (jwa == "ES384" <==> scheme == "ECDSA" && hash == "SHA-384")
      && (jwa == "ES512" <==> scheme == "ECDSA" && hash == "SHA-512")
      && (jwa == "EdDSA" <==> scheme == "Ed25519" || scheme == "EdDSA")
      && (jwa == "RS256" <==> scheme == "RSASSA-PKCS1-v1_5" && hash == "SHA-256")
      && (jwa == "RS384" <==> scheme == "RSASSA-PKCS1-v1_5" && hash == "SHA-384")
      && (jwa == "RS512" <==> scheme == "RSASSA-PKCS1-v1_5" && hash == "SHA-512")
      && (jwa == "PS256" <==> scheme == "RSA-PSS" && hash == "SHA-256")
      && (jwa == "PS384" <==> scheme == "RSA-PSS" && hash == "SHA-384")
      && (jwa == "PS512" <==> scheme == "RSA-PSS" && hash == "SHA-512")
      && (jwa in ["ES256", "ES384", "ES512", "EdDSA", "RS256", "RS384", "RS512", "PS256", "PS384", "PS512"] ||
          jwa == scheme + "-" + hash)
  {
    var pair := c.signatureName + "-" + c.signatureHash;
    assert pair[|c.signatureName|] == '-';
    assert forall s: string :: s == pair ==> '-' in s;
  }

  // ----- Name constraints -----

  function SupportedNames(names: seq<GeneralName>): (r: seq<Name>)
    ensures forall n :: n in r <==> Supported(n) in names
  {
    if names == [] then []
    else
      assert names == [names[0]] + names[1..];
      (match names[0] case Supported(n) => [n] case Unsupported => []) + SupportedNames(names[1..])
  }

  function LeafNames(leaf: Cert): seq<Name> {
    [Name(DN, leaf.subject)] + SupportedNames(leaf.altNames)
  }

  function Under(pol: Policy): (under: SubtreeTest)
    ensures KeepsKind(under)
  {
    (n, s) => MatchesSubtree(n, s, pol.hostname)
  }

  /** Every name of the leaf is allowed by ca. */
  ghost predicate NamesAllowedBy(pol: Policy, leaf: Cert, ca: Cert) {
    ca.constraints.Some? ==>
      forall n :: n in LeafNames(leaf) ==>
        NameAllowed(Under(pol), n, SupportedNames(ca.constraints.value.permitted),
          SupportedNames(ca.constraints.value.excluded))
  }

  ghost predicate NamesAllowed(pol: Policy, leaf: Cert, above: seq<Cert>) {
    forall ca :: ca in above ==> NamesAllowedBy(pol, leaf, ca)
  }

  /** n lies in a permitted subtree if any is of its kind, and in no excluded one. */
  ghost predicate Admits(pol: Policy, c: Constraints, n: Name) {
    && ((exists s :: Supported(s) in c.permitted && s.kind == n.kind) ==>
         exists s :: Supported(s) in c.permitted && LiesIn(n, s, pol.hostname))
    && forall s :: Supported(s) in c.excluded ==> !LiesIn(n, s, pol.hostname)
  }

  lemma AdmitsMeans(pol: Policy, c: Constraints, n: Name)
    ensures NameAllowed(Under(pol), n, SupportedNames(c.permitted), SupportedNames(c.excluded)) <==> Admits(pol, c, n)
  {
    var permitted, excluded := SupportedNames(c.permitted), SupportedNames(c.excluded);
    forall s
      ensures Under(pol)(n, s) <==> LiesIn(n, s, pol.hostname)
    {
      SubtreeTestMeans(n, s, pol.hostname);
    }
    SomeSubtree(Under(pol), n, c.permitted);
    SomeSubtree(Under(pol), n, c.excluded);
  }

  lemma SomeSubtree(under: SubtreeTest, n: Name, names: seq<GeneralName>)
    ensures MatchesAny(under, n, SupportedNames(names)) <==> exists s :: Supported(s) in names && under(n, s)
    ensures HasKind(SupportedNames(names), n.kind) <==> exists s :: Supported(s) in names && s.kind == n.kind
  {
    var supported := SupportedNames(names);
    forall s | Supported(s) in names
      ensures exists i :: 0 <= i < |supported| && supported[i] == s
    {
      assert s in supported;
    }
    forall i | 0 <= i < |supported|
      ensures Supported(supported[i]) in names
    {
      assert supported[i] in supported;
    }
  }

  /**
   * The names that count are the leaf's subject and its alternative names of the four kinds; each certificate
   * above that has constraints must admit them all.
   */
  ghost predicate AllAdmit(pol: Policy, leaf: Cert, above: seq<Cert>) {
    forall ca :: ca in above && ca.constraints.Some? ==>
      && Admits(pol, ca.constraints.value, Name(DN, leaf.subject))
      && forall n :: Supported(n) in leaf.altNames ==> Admits(pol, ca.constraints.value, n)
  }

  lemma NamesAllowedExactly(pol: Policy, leaf: Cert, above: seq<Cert>)
    ensures NamesAllowed(pol, leaf, above) <==> AllAdmit(pol, leaf, above)
  {
    assert forall n :: n in LeafNames(leaf) <==> n == Name(DN, leaf.subject) || Supported(n) in leaf.altNames;
    forall ca | ca in above && ca.constraints.Some?
      ensures NamesAllowedBy(pol, leaf, ca) <==>
        && Admits(pol, ca.constraints.value, Name(DN, leaf.subject))
        && forall n :: Supported(n) in leaf.altNames ==> Admits(pol, ca.constraints.value, n)
    {
      forall n
        ensures Admits(pol, ca.constraints.value, n) <==>
          NameAllowed(Under(pol), n, SupportedNames(ca.constraints.value.permitted),
                      SupportedNames(ca.constraints.value.excluded))
      {
        AdmitsMeans(pol, ca.constraints.value, n);
      }
    }
  }

  method CheckNameConstraints(pol: Policy, leaf: Cert, above: seq<Cert>) returns (ok: bool)
    ensures ok <==> NamesAllowed(pol, leaf, above)
    ensures ok <==> AllAdmit(pol, leaf, above)
  {
    var leafNames := LeafNames(leaf);
    for i := 0 to |above|
      invariant forall k :: 0 <= k < i ==> NamesAllowedBy(pol, leaf, above[k])
    {
      if above[i].constraints.Some? {
        var permitted := SupportedNames(above[i].constraints.value.permitted);
        var excluded := SupportedNames(above[i].constraints.value.excluded);
        ok := CheckOneCa(Under(pol), leafNames, permitted, excluded);
        if !ok {
          assert above[i] in above && !NamesAllowedBy(pol, leaf, above[i]);
          NamesAllowedExactly(pol, leaf, above);
          return;
        }
      }
    }
    NamesAllowedExactly(pol, leaf, above);
    ok := true;
  }
}
