/**
 * The static trust store: anchors found through two indexes, compared with a linear scan
 * that applies the hint rule of the list-of-lists store to each anchor.
 */
module TrustStore {
  import opened Options
  import opened ByteStrings
  import opened Names
  import opened Certificates
  import opened ChainBuilder
  import opened Hex

  datatype Hint = Hint(issuer: string, aki: Option<Bytes>)

  function SkiHex(c: Cert): Option<string> {
    match c.subjectKeyId
    case None => None
    case Some(keyId) => Some(Lower(keyId))
  }

  /** The library reports key identifiers as the hexadecimal form of the extension's bytes. */
  ghost predicate KeyIdIsHex(c: Cert) {
    c.subjectKeyId.Some? ==> exists bs :: Lower(c.subjectKeyId.value) == BytesToHex(bs)
  }

  /** The hint rule: the key identifiers agree byte for byte, or the issuer name is the anchor's subject. */
  ghost predicate MatchesHint(c: Cert, hint: Hint) {
    || (hint.aki.Some? && c.subjectKeyId.Some? && HexPairs(Lower(c.subjectKeyId.value)) == hint.aki.value)
    || (hint.issuer != "" && c.subject == hint.issuer)
  }

  /** The positions below n that satisfy p, in order. */
  ghost function Where(n: nat, p: nat -> bool): seq<nat> {
    if n == 0 then [] else Where(n - 1, p) + if p(n - 1) then [n - 1] else []
  }

  class StaticTrustStore {
    var anchors: seq<Cert>
    var skiIndex: map<string, seq<nat>>
    var subjectIndex: map<string, seq<nat>>

    /** Each index lists, per key, the positions of its anchors in insertion order. */
    ghost predicate Valid()
      reads this
    {
      Indexes(subjectIndex, skiIndex, anchors)
    }

    constructor (certs: seq<Cert>)
      ensures Valid() && anchors == certs
    {
      anchors, skiIndex, subjectIndex := [], map[], map[];
      new;
      for i := 0 to |certs|
        invariant Valid() && anchors == certs[..i]
      {
        Add(certs[i]);
        assert certs[..i + 1] == certs[..i] + [certs[i]];
      }
      assert certs[..|certs|] == certs;
    }

    method Add(cert: Cert)
      requires Valid()
      modifies this
      ensures Valid() && anchors == old(anchors) + [cert]
    {
      IndexesGrow(subjectIndex, skiIndex, anchors, cert);
      var bySubject := IndexUnder(subjectIndex, SubjectKey(cert), |anchors|);
      var bySki := IndexUnder(skiIndex, SkiKey(cert), |anchors|);
      var all := anchors + [cert];
      assert Indexes(bySubject, bySki, all);
      anchors, subjectIndex, skiIndex := all, bySubject, bySki;
    }

    /** The positions of the anchors returned, in order; a position is an anchor's identity. */
    method GetAnchors(hint: Hint) returns (results: seq<nat>)
      requires Valid()
      ensures results == Selected(anchors, hint)
    {
      results := [];
      if hint.aki.Some? {
        var key := BytesToHex(hint.aki.value);
        assert Entry(skiIndex, key) == Where(|anchors|, KeyIs(Map(anchors, SkiKey), key));
        if key in skiIndex {
          results := skiIndex[key];
        }
      }
      if hint.issuer != "" {
        assert Entry(subjectIndex, hint.issuer) == Where(|anchors|, KeyIs(Map(anchors, SubjectKey), hint.issuer));
        if hint.issuer in subjectIndex {
          results := PushUnlisted(results, subjectIndex[hint.issuer]);
        }
      }
    }
  }

  method PushUnlisted(listed: seq<nat>, matches: seq<nat>) returns (results: seq<nat>)
    ensures results == AddUnlisted(listed, matches)
  {
    results := listed;
    for i := 0 to |matches|
      invariant results == AddUnlisted(listed, matches[..i])
    {
      assert matches[..i + 1][..i] == matches[..i];
      if matches[i] !in results {
        results := results + [matches[i]];
      }
    }
    assert matches[..|matches|] == matches;
  }

  function AddUnlisted(listed: seq<nat>, matches: seq<nat>): seq<nat> {
    if matches == [] then listed
    else
      var r := AddUnlisted(listed, matches[..|matches| - 1]);
      var m := matches[|matches| - 1];
      if m in r then r else r + [m]
  }

  ghost function BySki(anchors: seq<Cert>, hint: Hint): seq<nat> {
    if hint.aki.None? then [] else Where(|anchors|, KeyIs(Map(anchors, SkiKey), BytesToHex(hint.aki.value)))
  }

  ghost function BySubject(anchors: seq<Cert>, hint: Hint): seq<nat> {
    if hint.issuer == "" then [] else Where(|anchors|, KeyIs(Map(anchors, SubjectKey), hint.issuer))
  }

  /** First the key identifier matches, then the remaining subject matches. */
  ghost function Selected(anchors: seq<Cert>, hint: Hint): seq<nat> {
    AddUnlisted(BySki(anchors, hint), BySubject(anchors, hint))
  }

  function Entry(index: map<string, seq<nat>>, key: string): seq<nat> {
    if key in index then index[key] else []
  }

  /** pushInto, when there is a key to index under. */
  function IndexUnder(index: map<string, seq<nat>>, key: Option<string>, i: nat): map<string, seq<nat>> {
    if key.Some? then index[key.value := Entry(index, key.value) + [i]] else index
  }

  /** The positions whose key is k. */
  ghost function KeyIs(keys: seq<Option<string>>, k: string): nat -> bool {
    (i: nat) => i < |keys| && keys[i] == Some(k)
  }

  /** Per key, the index lists the positions that have it, in insertion order. */
  ghost predicate Indexed(index: map<string, seq<nat>>, keys: seq<Option<string>>) {
    forall k :: Entry(index, k) == Where(|keys|, KeyIs(keys, k))
  }

  function SubjectKey(c: Cert): Option<string> {
    Some(c.subject)
  }

  /** An empty identifier is not indexed. */
  function SkiKey(c: Cert): Option<string> {
    if SkiHex(c) == Some("") then None else SkiHex(c)
  }

  ghost function Map(anchors: seq<Cert>, key: Cert -> Option<string>): (r: seq<Option<string>>)
    ensures |r| == |anchors| && forall i :: 0 <= i < |anchors| ==> r[i] == key(anchors[i])
  {
    if anchors == [] then [] else Map(anchors[..|anchors| - 1], key) + [key(anchors[|anchors| - 1])]
  }

  lemma MapSnoc(anchors: seq<Cert>, cert: Cert, key: Cert -> Option<string>)
    ensures Map(anchors + [cert], key) == Map(anchors, key) + [key(cert)]
  {
    assert (anchors + [cert])[..|anchors|] == anchors;
  }

  lemma {:induction false} WhereIsIncreasing(n: nat, p: nat -> bool)
    ensures forall i: nat :: i in Where(n, p) <==> i < n && p(i)
    ensures forall i, j :: 0 <= i < j < |Where(n, p)| ==> Where(n, p)[i] < Where(n, p)[j]
  {
    if n != 0 {
      var before := Where(n - 1, p);
      WhereIsIncreasing(n - 1, p);
      assert forall i :: 0 <= i < |before| ==> before[i] in before;
    }
  }

  lemma {:induction false} SameWhere(n: nat, p: nat -> bool, q: nat -> bool)
    requires forall i: nat :: i < n ==> p(i) == q(i)
    ensures Where(n, p) == Where(n, q)
  {
    if n != 0 { SameWhere(n - 1, p, q); }
  }

  lemma EntryGrows(index: map<string, seq<nat>>, keys: seq<Option<string>>, key: Option<string>, k: string)
    requires Entry(index, k) == Where(|keys|, KeyIs(keys, k))
    ensures Entry(IndexUnder(index, key, |keys|), k) == Where(|keys| + 1, KeyIs(keys + [key], k))
  {
    SameWhere(|keys|, KeyIs(keys, k), KeyIs(keys + [key], k));
    assert KeyIs(keys + [key], k)(|keys|) <==> key == Some(k);
  }

  lemma IndexGrows(index: map<string, seq<nat>>, keys: seq<Option<string>>, key: Option<string>)
    requires Indexed(index, keys)
    ensures Indexed(IndexUnder(index, key, |keys|), keys + [key])
  {
    var index', keys' := IndexUnder(index, key, |keys|), keys + [key];
    forall k
      ensures Entry(index', k) == Where(|keys'|, KeyIs(keys', k))
    {
      EntryGrows(index, keys, key, k);
    }
  }

  ghost predicate Indexes(subjectIndex: map<string, seq<nat>>, skiIndex: map<string, seq<nat>>, anchors: seq<Cert>) {
    Indexed(subjectIndex, Map(anchors, SubjectKey)) && Indexed(skiIndex, Map(anchors, SkiKey))
  }

  lemma IndexesGrow(subjectIndex: map<string, seq<nat>>, skiIndex: map<string, seq<nat>>,
                    anchors: seq<Cert>, cert: Cert)
    requires Indexes(subjectIndex, skiIndex, anchors)
    ensures Indexes(IndexUnder(subjectIndex, SubjectKey(cert), |anchors|),
                    IndexUnder(skiIndex, SkiKey(cert), |anchors|), anchors + [cert])
  {
    IndexGrows(subjectIndex, Map(anchors, SubjectKey), SubjectKey(cert));
    IndexGrows(skiIndex, Map(anchors, SkiKey), SkiKey(cert));
    MapSnoc(anchors, cert, SubjectKey);
    MapSnoc(anchors, cert, SkiKey);
  }

  lemma {:induction false} AddUnlistedMembers(listed: seq<nat>, matches: seq<nat>)
    ensures forall i :: i in AddUnlisted(listed, matches) <==> i in listed || i in matches
    ensures (forall i, j :: 0 <= i < j < |listed| ==> listed[i] != listed[j]) ==>
      forall i, j :: 0 <= i < j < |AddUnlisted(listed, matches)| ==>
        AddUnlisted(listed, matches)[i] != AddUnlisted(listed, matches)[j]
    ensures listed <= AddUnlisted(listed, matches)
  {
    if matches != [] {
      AddUnlistedMembers(listed, matches[..|matches| - 1]);
      assert matches == matches[..|matches| - 1] + [matches[|matches| - 1]];
    }
  }

  lemma {:induction false} UnlistedKeepOrder(listed: seq<nat>, matches: seq<nat>)
    requires forall i, j :: 0 <= i < j < |matches| ==> matches[i] < matches[j]
    ensures var r := AddUnlisted(listed, matches);
      && |listed| <= |r|
      && (forall i, j :: |listed| <= i < j < |r| ==> r[i] < r[j])
      && (forall i :: |listed| <= i < |r| ==> r[i] in matches)
  {
    if matches != [] {
      UnlistedKeepOrder(listed, matches[..|matches| - 1]);
      assert matches == matches[..|matches| - 1] + [matches[|matches| - 1]];
    }
  }

  /** Whether the anchor at i is selected, in terms of key identifier bytes and names. */
  lemma SelectedMember(anchors: seq<Cert>, hint: Hint, i: nat)
    requires i < |anchors| && KeyIdIsHex(anchors[i])
    ensures i in Selected(anchors, hint) <==>
      MatchesHint(anchors[i], hint) && (hint.aki != Some([]) || anchors[i].subject == hint.issuer != "")
  {
    AddUnlistedMembers(BySki(anchors, hint), BySubject(anchors, hint));
    SelectedBySki(anchors, hint, i);
    WhereIsIncreasing(|anchors|, KeyIs(Map(anchors, SubjectKey), hint.issuer));
  }

  lemma SelectedBySki(anchors: seq<Cert>, hint: Hint, i: nat)
    requires i < |anchors| && KeyIdIsHex(anchors[i])
    ensures i in BySki(anchors, hint) <==>
      hint.aki.Some? && hint.aki != Some([]) && anchors[i].subjectKeyId.Some? &&
      HexPairs(Lower(anchors[i].subjectKeyId.value)) == hint.aki.value
  {
    if hint.aki.Some? {
      WhereIsIncreasing(|anchors|, KeyIs(Map(anchors, SkiKey), BytesToHex(hint.aki.value)));
      HexRoundTrip(hint.aki.value);
    }
    if hint.aki.Some? && anchors[i].subjectKeyId.Some? {
      var bs :| Lower(anchors[i].subjectKeyId.value) == BytesToHex(bs);
      HexRoundTrip(bs);
      HexRoundTrip(hint.aki.value);
    }
  }

  ghost function HintRule(anchors: seq<Cert>, hint: Hint): nat -> bool {
    (i: nat) => i < |anchors| && MatchesHint(anchors[i], hint)
  }

  /** The linear scan of the list-of-lists store over the same anchors. */
  ghost function LinearScan(anchors: seq<Cert>, hint: Hint): seq<nat> {
    Where(|anchors|, HintRule(anchors, hint))
  }

  predicate KeyedByNothing(c: Cert) {
    c.subjectKeyId == Some("")
  }

  /**
   * The indexed lookup never repeats an anchor; the key identifier matches come first, in insertion order,
   * and then the remaining subject matches, in insertion order.
   */
  lemma SelectionOrder(anchors: seq<Cert>, hint: Hint)
    ensures var r, n := Selected(anchors, hint), |BySki(anchors, hint)|;
      && n <= |r| && r[..n] == BySki(anchors, hint)
      && (forall i, j :: 0 <= i < j < |r| ==> r[i] != r[j])
      && (forall i, j :: 0 <= i < j < n ==> r[i] < r[j])
      && (forall i, j :: n <= i < j < |r| ==> r[i] < r[j])
      && (forall i :: n <= i < |r| ==> r[i] in BySubject(anchors, hint))
  {
    AddUnlistedMembers(BySki(anchors, hint), BySubject(anchors, hint));
    if hint.aki.Some? { WhereIsIncreasing(|anchors|, KeyIs(Map(anchors, SkiKey), BytesToHex(hint.aki.value))); }
    WhereIsIncreasing(|anchors|, KeyIs(Map(anchors, SubjectKey), hint.issuer));
    UnlistedKeepOrder(BySki(anchors, hint), BySubject(anchors, hint));
  }

  /** The index passes over an anchor that the scan takes: both key identifiers are empty, and the names differ. */
  predicate PassedOver(c: Cert, hint: Hint) {
    hint.aki == Some([]) && KeyedByNothing(c) && !(c.subject == hint.issuer != "")
  }

  /** The indexed lookup selects what the linear scan selects exactly when there is no anchor it passes over. */
  lemma IndexesAgreeWithScan(anchors: seq<Cert>, hint: Hint)
    requires forall c :: c in anchors ==> KeyIdIsHex(c)
    ensures (forall i :: i in Selected(anchors, hint) <==> i in LinearScan(anchors, hint)) <==>
      !exists c :: c in anchors && PassedOver(c, hint)
  {
    AddUnlistedMembers(BySki(anchors, hint), BySubject(anchors, hint));
    if hint.aki.Some? { WhereIsIncreasing(|anchors|, KeyIs(Map(anchors, SkiKey), BytesToHex(hint.aki.value))); }
    WhereIsIncreasing(|anchors|, KeyIs(Map(anchors, SubjectKey), hint.issuer));
    WhereIsIncreasing(|anchors|, HintRule(anchors, hint));
    forall i: nat | i < |anchors|
      ensures i in Selected(anchors, hint) <==> i in LinearScan(anchors, hint) && !PassedOver(anchors[i], hint)
      ensures PassedOver(anchors[i], hint) ==> i in LinearScan(anchors, hint)
    {
      assert anchors[i] in anchors;
      SelectedMember(anchors, hint, i);
      EmptyKeyId(anchors[i]);
    }
  }

  lemma EmptyKeyId(c: Cert)
    requires KeyIdIsHex(c)
    ensures KeyedByNothing(c) <==> c.subjectKeyId.Some? && HexPairs(Lower(c.subjectKeyId.value)) == []
  {
    if c.subjectKeyId.Some? {
      var bs :| Lower(c.subjectKeyId.value) == BytesToHex(bs);
      HexRoundTrip(bs);
      assert |Lower(c.subjectKeyId.value)| == |c.subjectKeyId.value|;
    }
  }

  /** An anchor with an empty key identifier and a hint that carries one: the scan finds it, the index does not. */
  lemma EmptyKeyIdIsNotIndexed()
    ensures var c := PlainCert(0, "root", "root", true).(subjectKeyId := Some(""));
      var hint := Hint("other", Some([]));
      LinearScan([c], hint) == [0] && Selected([c], hint) == []
  {
    var c, hint := PlainCert(0, "root", "root", true).(subjectKeyId := Some("")), Hint("other", Some([]));
    assert MatchesHint(c, hint);
    assert HintRule([c], hint)(0);
    assert Where(0, HintRule([c], hint)) == [];
    assert !KeyIs(Map([c], SkiKey), "")(0) && !KeyIs(Map([c], SubjectKey), "other")(0);
    assert Where(0, KeyIs(Map([c], SkiKey), "")) == [] && Where(0, KeyIs(Map([c], SubjectKey), "other")) == [];
  }
}
