/**
 * Trust evaluation: candidate anchors from the store, one chain, the anchor it closed at,
 * and the revocation verdict for the leaf under its issuer.
 */
module TrustEvaluator {
  import opened Options
  import opened ByteStrings
  import opened Names
  import opened Certificates
  import opened ChainBuilder
  import opened TrustStore
  import Hex

  datatype TrustAnchor = TrustAnchor(certificate: Cert, authorityIds: seq<string>)

  type Lookup = Hint -> seq<TrustAnchor>

  datatype Verdict = Good | Unknown | RevokedLeaf | Unchecked

  datatype Evaluation =
    | Trusted(chain: seq<Cert>, anchor: TrustAnchor, verdict: Verdict)
    | NoAnchor
    | NoChain(reason: Reason)
    | TerminusMismatch
    | Revoked
    | CheckFailed

  /** The hint for a certificate: its issuer name, and its authority key identifier when not empty. */
  function DeriveHint(c: Cert): Hint {
    match c.authorityKeyId
    case Some(Some(keyId)) => Hint(c.issuer, if keyId == "" then None else Some(Hex.HexToBytes(keyId)))
    case _ => Hint(c.issuer, None)
  }

  /** Everything the store offers for the leaf and for each intermediate, in the order it is asked. */
  function Offered(lookup: Lookup, leaf: Cert, intermediates: seq<Cert>): seq<TrustAnchor> {
    if intermediates == [] then lookup(DeriveHint(leaf))
    else
      var n := |intermediates| - 1;
      Offered(lookup, leaf, intermediates[..n]) + lookup(DeriveHint(intermediates[n]))
  }

  /** The store returns every anchor it holds that the hint rule matches. */
  ghost predicate OffersMatches(lookup: Lookup, held: set<TrustAnchor>) {
    forall a, hint :: a in held && MatchesHint(a.certificate, hint) ==> a in lookup(hint)
  }

  /** The certificate names the anchor: by its issuer, or by the bytes of its authority key identifier. */
  ghost predicate NamesAnchor(c: Cert, anchor: Cert) {
    || (c.issuer != "" && anchor.subject == c.issuer)
    || (anchor.subjectKeyId.Some? && exists keyId ::
          keyId != "" && c.authorityKeyId == Some(Some(keyId)) &&
          Hex.HexPairs(Lower(anchor.subjectKeyId.value)) == Hex.HexToBytes(keyId))
  }

  lemma HintMatchesNamedAnchor(c: Cert, anchor: Cert)
    ensures MatchesHint(anchor, DeriveHint(c)) <==> NamesAnchor(c, anchor)
  {
  }

  /** Every anchor of the store that the leaf or an intermediate names is on offer. */
  lemma {:induction false} NamedAnchorsAreOffered(lookup: Lookup, held: set<TrustAnchor>, leaf: Cert,
                                                  intermediates: seq<Cert>, a: TrustAnchor)
    requires OffersMatches(lookup, held) && a in held
    requires NamesAnchor(leaf, a.certificate) || exists c :: c in intermediates && NamesAnchor(c, a.certificate)
    ensures a in Offered(lookup, leaf, intermediates)
  {
    if intermediates == [] {
      HintMatchesNamedAnchor(leaf, a.certificate);
    } else {
      var n := |intermediates| - 1;
      HintMatchesNamedAnchor(intermediates[n], a.certificate);
      if !NamesAnchor(intermediates[n], a.certificate) {
        assert forall c :: c in intermediates && c != intermediates[n] ==> c in intermediates[..n];
        NamedAnchorsAreOffered(lookup, held, leaf, intermediates[..n], a);
      }
    }
  }

  ghost predicate SerialListed(anchors: seq<TrustAnchor>, serial: string) {
    exists i :: 0 <= i < |anchors| && anchors[i].certificate.serialNumber == serial
  }

  /** The first anchor of each serial number. */
  ghost function FirstPerSerial(anchors: seq<TrustAnchor>): seq<TrustAnchor> {
    if anchors == [] then []
    else
      var n := |anchors| - 1;
      FirstPerSerial(anchors[..n]) +
      if SerialListed(anchors[..n], anchors[n].certificate.serialNumber) then [] else [anchors[n]]
  }

  ghost function SerialsOf(anchors: seq<TrustAnchor>): set<string> {
    set a | a in anchors :: a.certificate.serialNumber
  }

  method PushUnique(anchors: seq<TrustAnchor>, seen: set<string>, batch: seq<TrustAnchor>,
                    ghost offered: seq<TrustAnchor>)
    returns (anchors': seq<TrustAnchor>, seen': set<string>)
    requires anchors == FirstPerSerial(offered) && seen == SerialsOf(offered)
    ensures anchors' == FirstPerSerial(offered + batch) && seen' == SerialsOf(offered + batch)
  {
    anchors', seen' := anchors, seen;
    ghost var all := offered;
    for i := 0 to |batch|
      invariant all == offered + batch[..i]
      invariant anchors' == FirstPerSerial(all) && seen' == SerialsOf(all)
    {
      assert offered + batch[..i + 1] == offered + batch[..i] + [batch[i]];
      anchors', seen' := PushOne(anchors', seen', batch[i], all);
      all := all + [batch[i]];
    }
    assert batch[..|batch|] == batch;
  }

  method PushOne(anchors: seq<TrustAnchor>, seen: set<string>, a: TrustAnchor, ghost offered: seq<TrustAnchor>)
    returns (anchors': seq<TrustAnchor>, seen': set<string>)
    requires anchors == FirstPerSerial(offered) && seen == SerialsOf(offered)
    ensures anchors' == FirstPerSerial(offered + [a]) && seen' == SerialsOf(offered + [a])
  {
    FirstPerSerialSnoc(offered, a);
    anchors', seen' := anchors, seen;
    var key := a.certificate.serialNumber;
    if key !in seen {
      seen' := seen + {key};
      anchors' := anchors + [a];
    }
  }

  lemma {:induction false} FirstPerSerialSnoc(anchors: seq<TrustAnchor>, a: TrustAnchor)
    ensures SerialsOf(anchors + [a]) == SerialsOf(anchors) + {a.certificate.serialNumber}
    ensures FirstPerSerial(anchors + [a]) ==
      FirstPerSerial(anchors) + if a.certificate.serialNumber in SerialsOf(anchors) then [] else [a]
  {
    assert (anchors + [a])[..|anchors|] == anchors;
    if SerialListed(anchors, a.certificate.serialNumber) {
      var i :| 0 <= i < |anchors| && anchors[i].certificate.serialNumber == a.certificate.serialNumber;
      assert anchors[i] in anchors;
    }
  }

  method CollectAnchors(lookup: Lookup, leaf: Cert, intermediates: seq<Cert>) returns (anchors: seq<TrustAnchor>)
    ensures anchors == FirstPerSerial(Offered(lookup, leaf, intermediates))
  {
    var seen: set<string>;
    assert FirstPerSerial([]) == [] && SerialsOf([]) == {} && [] + lookup(DeriveHint(leaf)) == lookup(DeriveHint(leaf));
    anchors, seen := PushUnique([], {}, lookup(DeriveHint(leaf)), []);
    for i := 0 to |intermediates|
      invariant anchors == FirstPerSerial(Offered(lookup, leaf, intermediates[..i]))
      invariant seen == SerialsOf(Offered(lookup, leaf, intermediates[..i]))
    {
      assert intermediates[..i + 1][..i] == intermediates[..i];
      var batch := lookup(DeriveHint(intermediates[i]));
      anchors, seen := PushUnique(anchors, seen, batch, Offered(lookup, leaf, intermediates[..i]));
    }
    assert intermediates[..|intermediates|] == intermediates;
  }

  function CertsOf(anchors: seq<TrustAnchor>): (r: seq<Cert>)
    ensures |r| == |anchors| && forall i :: 0 <= i < |anchors| ==> r[i] == anchors[i].certificate
  {
    if anchors == [] then [] else [anchors[0].certificate] + CertsOf(anchors[1..])
  }

  /** The anchors the search runs over. */
  ghost function Candidates(lookup: Lookup, leaf: Cert, intermediates: seq<Cert>): seq<TrustAnchor> {
    FirstPerSerial(Offered(lookup, leaf, intermediates))
  }

  lemma {:induction false} CandidatesAreOffered(anchors: seq<TrustAnchor>)
    ensures forall a :: a in FirstPerSerial(anchors) ==> a in anchors
    ensures SerialsOf(FirstPerSerial(anchors)) == SerialsOf(anchors)
    ensures anchors != [] ==> FirstPerSerial(anchors) != []
    ensures OnePerSerial(FirstPerSerial(anchors))
  {
    if anchors != [] {
      var init, a := anchors[..|anchors| - 1], anchors[|anchors| - 1];
      CandidatesAreOffered(init);
      FirstPerSerialSnoc(init, a);
      assert anchors == init + [a];
      var r := FirstPerSerial(init);
      if a.certificate.serialNumber !in SerialsOf(init) { OnePerSerialSnoc(r, a); }
      assert SerialsOf(r + [a]) == SerialsOf(r) + {a.certificate.serialNumber};
    }
  }

  ghost predicate OnePerSerial(anchors: seq<TrustAnchor>) {
    forall i, j :: 0 <= i < j < |anchors| ==>
      anchors[i].certificate.serialNumber != anchors[j].certificate.serialNumber
  }

  lemma OnePerSerialSnoc(anchors: seq<TrustAnchor>, a: TrustAnchor)
    requires OnePerSerial(anchors) && a.certificate.serialNumber !in SerialsOf(anchors)
    ensures OnePerSerial(anchors + [a])
  {
    forall i | 0 <= i < |anchors|
      ensures anchors[i].certificate.serialNumber in SerialsOf(anchors)
    {
      assert anchors[i] in anchors;
    }
  }

  /** With a chain, the revocation answer for the leaf under its issuer decides: no answer, revoked, or trusted. */
  ghost predicate FollowsVerdict(revocation: (Cert, Cert) -> Option<Verdict>, leaf: Cert, chain: seq<Cert>,
                                 r: Evaluation) {
    match revocation(leaf, if |chain| > 1 then chain[1] else leaf)
    case None => r == CheckFailed
    case Some(verdict) =>
      if verdict == RevokedLeaf then r == Revoked
      else r.Trusted? && r.chain == chain && r.verdict == verdict
  }

  /** a is on offer, and nothing with its serial number is offered before it. */
  ghost predicate FirstOffered(offered: seq<TrustAnchor>, a: TrustAnchor) {
    exists i: nat :: i < |offered| && offered[i] == a && !SerialListed(offered[..i], a.certificate.serialNumber)
  }

  lemma FirstOfferedSnoc(offered: seq<TrustAnchor>, last: TrustAnchor, a: TrustAnchor)
    ensures FirstOffered(offered + [last], a) <==>
      FirstOffered(offered, a) || (a == last && !SerialListed(offered, a.certificate.serialNumber))
  {
    var all, n, serial := offered + [last], |offered|, a.certificate.serialNumber;
    assert all[..n] == offered && all[n] == last;
    assert forall i: nat :: i < n ==> all[..i] == offered[..i];
    if FirstOffered(offered, a) {
      var i: nat :| i < n && offered[i] == a && !SerialListed(offered[..i], serial);
      assert all[i] == a && !SerialListed(all[..i], serial);
    }
  }

  /** An anchor is tried exactly when it is the first offered with its serial number. */
  lemma {:induction false} CandidatesAreFirsts(offered: seq<TrustAnchor>, a: TrustAnchor)
    ensures a in FirstPerSerial(offered) <==> FirstOffered(offered, a)
  {
    if offered != [] {
      var init, last := offered[..|offered| - 1], offered[|offered| - 1];
      CandidatesAreFirsts(init, a);
      FirstOfferedSnoc(init, last, a);
      assert offered == init + [last];
    }
  }

  ghost predicate SerialsAreDistinct(offered: seq<TrustAnchor>) {
    forall a, b :: a in offered && b in offered && a.certificate.serialNumber == b.certificate.serialNumber ==>
      a == b
  }

  /** De-duplication hides no anchor exactly when no two different anchors on offer share a serial number. */
  lemma NothingHiddenExactly(offered: seq<TrustAnchor>)
    ensures (forall a :: a in offered ==> a in FirstPerSerial(offered)) <==> SerialsAreDistinct(offered)
  {
    CandidatesAreOffered(offered);
    var firsts := FirstPerSerial(offered);
    if forall a :: a in offered ==> a in firsts {
      forall a, b | a in offered && b in offered && a.certificate.serialNumber == b.certificate.serialNumber
        ensures a == b
      {
        var i: nat :| i < |firsts| && firsts[i] == a;
        var j: nat :| j < |firsts| && firsts[j] == b;
      }
    }
    if SerialsAreDistinct(offered) {
      forall a | a in offered
        ensures a in firsts
      {
        assert a.certificate.serialNumber in SerialsOf(firsts);
        var c :| c in firsts && c.certificate.serialNumber == a.certificate.serialNumber;
      }
    }
  }

  /** evaluate; revocation stands for the revocation checker's answer for a certificate and its issuer. */
  method Evaluate(pol: Policy, lookup: Lookup, revocation: (Cert, Cert) -> Option<Verdict>,
                  leaf: Cert, intermediates: seq<Cert>)
    returns (r: Evaluation)
    requires !SearchOutcome(pol, leaf, CertsOf(Candidates(lookup, leaf, intermediates)), intermediates).Unfinished?
    ensures !r.TerminusMismatch?
    ensures r.NoAnchor? <==> Offered(lookup, leaf, intermediates) == []
    ensures var built := SearchOutcome(pol, leaf, CertsOf(Candidates(lookup, leaf, intermediates)), intermediates);
      r.NoAnchor? ||
      if built.Failed? then r == NoChain(built.reason) else FollowsVerdict(revocation, leaf, built.chain, r)
    ensures r.Trusted? ==>
      && r.anchor in Offered(lookup, leaf, intermediates)
      && r.chain != [] && Last(r.chain).der == r.anchor.certificate.der
      && exists anchor :: anchor in CertsOf(Candidates(lookup, leaf, intermediates)) &&
                          ValidPath(pol, leaf, anchor, intermediates, r.chain)
  {
    var anchors := CollectAnchors(lookup, leaf, intermediates);
    CandidatesAreOffered(Offered(lookup, leaf, intermediates));
    if |anchors| == 0 {
      return NoAnchor;
    }
    var anchorCerts := CertsOf(anchors);
    var built := Build(pol, leaf, anchorCerts, intermediates);
    if built.Failed? {
      return NoChain(built.reason);
    }
    SearchIsSound(pol, leaf, anchorCerts, intermediates);
    r := Conclude(revocation, leaf, anchors, built.chain);
  }

  /** The part of evaluate after the chain is built. */
  method Conclude(revocation: (Cert, Cert) -> Option<Verdict>, leaf: Cert, anchors: seq<TrustAnchor>, chain: seq<Cert>)
    returns (r: Evaluation)
    requires chain != [] && chain[0] == leaf
    requires exists i :: 0 <= i < |anchors| && anchors[i].certificate.der == Last(chain).der
    ensures FollowsVerdict(revocation, leaf, chain, r)
    ensures r.Trusted? ==> r.anchor in anchors && Last(chain).der == r.anchor.certificate.der
  {
    var terminus := chain[|chain| - 1];
    var found := FindByBytes(anchors, terminus);
    if found == -1 {
      return TerminusMismatch;
    }
    var verdict := revocation(leaf, if |chain| > 1 then chain[1] else terminus);
    if verdict.None? {
      return CheckFailed;
    }
    if verdict.value == RevokedLeaf {
      return Revoked;
    }
    r := Trusted(chain, anchors[found], verdict.value);
  }

  /** Position of the first anchor with the same bytes, or -1. */
  method FindByBytes(anchors: seq<TrustAnchor>, c: Cert) returns (r: int)
    ensures -1 <= r < |anchors|
    ensures r == -1 ==> forall i :: 0 <= i < |anchors| ==> anchors[i].certificate.der != c.der
    ensures r != -1 ==> anchors[r].certificate.der == c.der
  {
    for i := 0 to |anchors|
      invariant forall k :: 0 <= k < i ==> anchors[k].certificate.der != c.der
    {
      if anchors[i].certificate.der == c.der {
        return i;
      }
    }
    return -1;
  }

  function PlainRoot(id: byte): TrustAnchor {
    TrustAnchor(PlainCert(id, "root", "root", true), [])
  }

  lemma SecondOfTwoIsDropped(a: TrustAnchor, b: TrustAnchor)
    requires a.certificate.serialNumber == b.certificate.serialNumber
    ensures FirstPerSerial([a, b]) == [a]
  {
    assert [a, b][..1] == [a] && [a][..0] == [];
    assert !SerialListed([], a.certificate.serialNumber);
    assert FirstPerSerial([a]) == [a];
    assert [a][0].certificate.serialNumber == b.certificate.serialNumber;
    assert SerialListed([a], b.certificate.serialNumber);
  }

  lemma DirectlyIssuedLeaf(id: byte)
    ensures var leaf, root := PlainCert(3, "leaf", "root", false), PlainCert(id, "root", "root", true);
      if id == 2 then SearchOutcome(LENIENT, leaf, [root], []) == Failed(SignatureFailed)
      else ValidPath(LENIENT, leaf, root, [], [leaf, root])
  {
    var leaf, root := PlainCert(3, "leaf", "root", false), PlainCert(id, "root", "root", true);
    PlainCertsAreFine(3, "leaf", "root", false);
    PlainCertsAreFine(id, "root", "root", true);
    PlainIssuer(leaf, id, "root", "root", 0);
    assert Last([leaf]) == leaf;
    if id != 2 {
      var path := [leaf, root];
      assert Link(LENIENT, path, 1);
      assert path[1..] == [root];
    }
  }

  /**
   * De-duplication by serial number is not by identity: of two anchors that share one, only the
   * first offered is tried, even when only the second certifies the leaf.
   */
  lemma SharedSerialHidesAnchor(lookup: Lookup)
    requires forall h :: lookup(h) == [PlainRoot(2), PlainRoot(4)]
    ensures
      var leaf, hidden := PlainCert(3, "leaf", "root", false), PlainCert(4, "root", "root", true);
      && PlainRoot(4) in Offered(lookup, leaf, [])
      && ValidPath(LENIENT, leaf, hidden, [], [leaf, hidden])
      && SearchOutcome(LENIENT, leaf, CertsOf(Candidates(lookup, leaf, [])), []) == Failed(SignatureFailed)
  {
    var leaf := PlainCert(3, "leaf", "root", false);
    var a, b := PlainRoot(2), PlainRoot(4);
    SecondOfTwoIsDropped(a, b);
    assert CertsOf([a]) == [a.certificate];
    assert [a, b][1] == b;
    DirectlyIssuedLeaf(2);
    DirectlyIssuedLeaf(4);
  }
}
