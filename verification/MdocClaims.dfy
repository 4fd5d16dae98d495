/**
 * Digest verification of IssuerSignedItems and the claims mapped from them: when every
 * digest matches, each claim stems from an item the issuer committed to
 * (section 9.1.2.4 of ISO 18013-5). CBOR decoding and hashing are parameters.
 */
module MdocClaims {
  import opened Options
  import opened ByteStrings

  type Value = int

  /** digestID and elementIdentifier are None when absent or of another type. */
  datatype Item = Item(digestID: Option<int>, elementIdentifier: Option<string>, elementValue: Value)

  /** What decoding the bytes of an item gives. */
  datatype Decoding =
    | Undecodable
    | NotWrapped
    | InnerUndecodable
    | InnerNotMap
    | ItemMap(item: Item)

  datatype Crypto = Crypto(decode: Bytes -> Decoding, hash: (string, Bytes) -> Bytes)

  datatype NameSpace = NameSpace(name: string, items: seq<Bytes>)

  /** The decoded name spaces, a Map with distinct keys in order. */
  type NameSpaces = seq<NameSpace>

  ghost predicate DistinctNames(ns: NameSpaces) {
    forall i, j :: 0 <= i < j < |ns| ==> ns[i].name != ns[j].name
  }

  datatype Mso = Mso(digestAlgorithm: string, valueDigests: map<string, map<int, Bytes>>)

  datatype LogEntry = LogEntry(nameSpace: string, digestID: int, matches: bool)

  datatype Verification = Matched(log: seq<LogEntry>) | Mismatch(log: seq<LogEntry>) | Malformed | Crashed

  const ALLOWED: set<string> := {"SHA-256", "SHA-384", "SHA-512"}

  // ----- One item -----

  /** The digest the MSO commits for an item, if it has a number and the MSO lists it. */
  function Committed(mso: Mso, name: string, item: Item): Option<Bytes> {
    if item.digestID.Some? && name in mso.valueDigests && item.digestID.value in mso.valueDigests[name]
    then Some(mso.valueDigests[name][item.digestID.value]) else None
  }

  /**
   * The item bytes hash, with an allowed algorithm, to the digest committed for their own number in their name
   * space.
   */
  predicate IsCommitted(cr: Crypto, mso: Mso, name: string, bytes: Bytes) {
    mso.digestAlgorithm in ALLOWED && cr.decode(bytes).ItemMap? &&
    Committed(mso, name, cr.decode(bytes).item) == Some(cr.hash(mso.digestAlgorithm, bytes))
  }

  /** The digests count exactly for an allowed algorithm, an item that decodes and has a number the MSO lists. */
  lemma CommittedMeans(cr: Crypto, mso: Mso, name: string, bytes: Bytes)
    ensures IsCommitted(cr, mso, name, bytes) <==>
      && mso.digestAlgorithm in {"SHA-256", "SHA-384", "SHA-512"} && cr.decode(bytes).ItemMap?
      && var number := cr.decode(bytes).item.digestID;
         number.Some? && name in mso.valueDigests && number.value in mso.valueDigests[name] &&
         mso.valueDigests[name][number.value] == cr.hash(mso.digestAlgorithm, bytes)
  {
  }

  /** The log entry for an item; None where the original throws a malformed-credential error. */
  function CheckItem(cr: Crypto, mso: Mso, name: string, bytes: Bytes): Option<LogEntry> {
    match cr.decode(bytes)
    case ItemMap(item) =>
      if mso.digestAlgorithm !in ALLOWED || Committed(mso, name, item).None? then None
      else
        var matches := cr.hash(mso.digestAlgorithm, bytes) == Committed(mso, name, item).value;
        Some(LogEntry(name, item.digestID.value, matches))
    case _ => None
  }

  ghost predicate SpaceCommitted(cr: Crypto, mso: Mso, space: NameSpace) {
    space.name in mso.valueDigests && forall bytes :: bytes in space.items ==> IsCommitted(cr, mso, space.name, bytes)
  }

  ghost predicate AllCommitted(cr: Crypto, mso: Mso, ns: NameSpaces) {
    forall space :: space in ns ==> SpaceCommitted(cr, mso, space)
  }

  // ----- The digest log -----

  ghost predicate NoMismatch(log: seq<LogEntry>) {
    forall i :: 0 <= i < |log| ==> log[i].matches
  }

  ghost predicate Loggable(cr: Crypto, mso: Mso, space: NameSpace) {
    space.name in mso.valueDigests && forall j :: 0 <= j < |space.items| ==>
      CheckItem(cr, mso, space.name, space.items[j]).Some?
  }

  ghost predicate AllLoggable(cr: Crypto, mso: Mso, ns: NameSpaces) {
    forall space :: space in ns ==> Loggable(cr, mso, space)
  }

  /** The entry names the name space and the item's number, and says whether the item's bytes hash to its digest. */
  ghost predicate Records(cr: Crypto, mso: Mso, space: NameSpace, j: int, log: seq<LogEntry>, start: nat)
    requires 0 <= j < |space.items| && start + |space.items| <= |log|
  {
    var entry := log[start + j];
    && entry.nameSpace == space.name && cr.decode(space.items[j]).ItemMap?
    && cr.decode(space.items[j]).item.digestID == Some(entry.digestID)
    && space.name in mso.valueDigests && entry.digestID in mso.valueDigests[space.name]
    && (entry.matches <==>
          cr.hash(mso.digestAlgorithm, space.items[j]) == mso.valueDigests[space.name][entry.digestID])
  }

  /** Decoding an inner item throws, which the original does not catch. */
  ghost predicate HasUndecodable(cr: Crypto, space: NameSpace) {
    exists j :: 0 <= j < |space.items| && cr.decode(space.items[j]).InnerUndecodable?
  }

  /** The name space is not in the MSO, or an item cannot be checked for a reason that the original reports. */
  ghost predicate HasFault(cr: Crypto, mso: Mso, space: NameSpace) {
    || space.name !in mso.valueDigests
    || exists j :: 0 <= j < |space.items| &&
         (mso.digestAlgorithm !in {"SHA-256", "SHA-384", "SHA-512"} ||
          (!cr.decode(space.items[j]).InnerUndecodable? &&
           (!cr.decode(space.items[j]).ItemMap? ||
            Committed(mso, space.name, cr.decode(space.items[j]).item).None?)))
  }

  method LogNameSpace(cr: Crypto, mso: Mso, space: NameSpace, log: seq<LogEntry>) returns (r: Verification)
    ensures r.Matched? <==> Loggable(cr, mso, space)
    ensures !r.Mismatch?
    ensures r.Matched? ==> log <= r.log && |r.log| == |log| + |space.items|
    ensures r.Matched? ==> forall j :: 0 <= j < |space.items| ==>
      CheckItem(cr, mso, space.name, space.items[j]) == Some(r.log[|log| + j])
    ensures r.Matched? ==> forall j :: 0 <= j < |space.items| ==> Records(cr, mso, space, j, r.log, |log|)
    ensures r.Crashed? ==> HasUndecodable(cr, space)
    ensures r.Malformed? ==> HasFault(cr, mso, space)
  {
    if space.name !in mso.valueDigests {
      return Malformed;
    }
    var out := log;
    for j := 0 to |space.items|
      invariant log <= out && |out| == |log| + j
      invariant forall k :: 0 <= k < j ==> CheckItem(cr, mso, space.name, space.items[k]) == Some(out[|log| + k])
    {
      var bytes := space.items[j];
      if mso.digestAlgorithm !in ALLOWED {
        return Malformed;
      }
      var decoded := cr.decode(bytes);
      if decoded.InnerUndecodable? {
        return Crashed;
      }
      if !decoded.ItemMap? {
        return Malformed;
      }
      var digestID := decoded.item.digestID;
      if digestID.None? {
        return Malformed;
      }
      var expected := mso.valueDigests[space.name];
      if digestID.value !in expected {
        return Malformed;
      }
      var matches := cr.hash(mso.digestAlgorithm, bytes) == expected[digestID.value];
      out := out + [LogEntry(space.name, digestID.value, matches)];
    }
    forall j | 0 <= j < |space.items|
      ensures Records(cr, mso, space, j, out, |log|)
    {
      assert CheckItem(cr, mso, space.name, space.items[j]) == Some(out[|log| + j]);
    }
    r := Matched(out);
  }

  ghost function ItemCount(ns: NameSpaces): nat {
    if ns == [] then 0 else ItemCount(ns[..|ns| - 1]) + |ns[|ns| - 1].items|
  }

  /** verifyAllDigests. */
  method VerifyAllDigests(cr: Crypto, ns: NameSpaces, mso: Mso) returns (r: Verification)
    ensures r.Matched? <==> AllCommitted(cr, mso, ns)
    ensures r.Matched? || r.Mismatch? <==> AllLoggable(cr, mso, ns)
    ensures r.Crashed? ==> exists space :: space in ns && HasUndecodable(cr, space)
    ensures r.Malformed? ==> exists space :: space in ns && HasFault(cr, mso, space)
    ensures r.Matched? || r.Mismatch? ==> |r.log| == ItemCount(ns) && (r.Matched? <==> NoMismatch(r.log))
  {
    var log: seq<LogEntry> := [];
    for i := 0 to |ns|
      invariant |log| == ItemCount(ns[..i]) && AllLoggable(cr, mso, ns[..i])
      invariant NoMismatch(log) <==> AllCommitted(cr, mso, ns[..i])
    {
      assert ns[..i + 1][..i] == ns[..i];
      assert ns[..i + 1] == ns[..i] + [ns[i]];
      var step := LogNameSpace(cr, mso, ns[i], log);
      if !step.Matched? {
        NotLoggable(cr, mso, ns[i]);
        assert ns[i] in ns;
        return step;
      }
      ExtendLog(cr, mso, ns[i], log, step.log);
      log := step.log;
    }
    assert ns[..|ns|] == ns;
    var mismatched := SomeMismatch(log);
    r := if mismatched then Mismatch(log) else Matched(log);
  }

  method SomeMismatch(log: seq<LogEntry>) returns (found: bool)
    ensures found <==> !NoMismatch(log)
  {
    for i := 0 to |log|
      invariant forall k :: 0 <= k < i ==> log[k].matches
    {
      if !log[i].matches {
        return true;
      }
    }
    return false;
  }

  lemma NotLoggable(cr: Crypto, mso: Mso, space: NameSpace)
    requires !Loggable(cr, mso, space)
    ensures !SpaceCommitted(cr, mso, space)
  {
    if space.name in mso.valueDigests {
      var j :| 0 <= j < |space.items| && CheckItem(cr, mso, space.name, space.items[j]).None?;
      assert space.items[j] in space.items && !IsCommitted(cr, mso, space.name, space.items[j]);
    }
  }

  lemma ExtendLog(cr: Crypto, mso: Mso, space: NameSpace, log: seq<LogEntry>, log': seq<LogEntry>)
    requires Loggable(cr, mso, space) && log <= log' && |log'| == |log| + |space.items|
    requires forall j :: 0 <= j < |space.items| ==>
      CheckItem(cr, mso, space.name, space.items[j]) == Some(log'[|log| + j])
    ensures NoMismatch(log') <==> NoMismatch(log) && SpaceCommitted(cr, mso, space)
  {
    forall j | 0 <= j < |space.items|
      ensures log'[|log| + j].matches <==> IsCommitted(cr, mso, space.name, space.items[j])
    {
      assert CheckItem(cr, mso, space.name, space.items[j]) == Some(log'[|log| + j]);
    }
    if NoMismatch(log') {
      assert forall k :: 0 <= k < |log| ==> log[k] == log'[k];
    }
    if NoMismatch(log) && SpaceCommitted(cr, mso, space) {
      forall k | 0 <= k < |log'|
        ensures log'[k].matches
      {
        if k >= |log| {
          var j := k - |log|;
          assert space.items[j] in space.items;
          assert log'[|log| + j].matches;
        } else {
          assert log[k] == log'[k];
        }
      }
    }
  }

  // ----- The claims -----

  type Claims = map<string, Value>

  datatype Mapped = Mapped(flat: Claims, namespaced: map<string, Claims>)

  /** The claim an item contributes, if its identifier is a string. */
  function ClaimOf(cr: Crypto, bytes: Bytes): Option<(string, Value)> {
    match cr.decode(bytes)
    case ItemMap(item) =>
      if item.elementIdentifier.Some? then Some((item.elementIdentifier.value, item.elementValue)) else None
    case _ => None
  }

  ghost predicate Crashes(cr: Crypto, items: seq<Bytes>) {
    exists j :: 0 <= j < |items| && cr.decode(items[j]).InnerUndecodable?
  }

  method MapNameSpace(cr: Crypto, items: seq<Bytes>, flat: Claims, bucket: Claims) returns (r: Option<(Claims, Claims)>)
    ensures r.None? <==> Crashes(cr, items)
    ensures r.Some? ==> r.value == (flat + Bucket(cr, items), bucket + Bucket(cr, items))
  {
    var flat', bucket' := flat, bucket;
    for j := 0 to |items|
      invariant !Crashes(cr, items[..j])
      invariant flat' == flat + Bucket(cr, items[..j]) && bucket' == bucket + Bucket(cr, items[..j])
    {
      assert items[..j + 1][..j] == items[..j];
      var decoded := cr.decode(items[j]);
      if decoded.InnerUndecodable? {
        return None;
      }
      if decoded.ItemMap? && decoded.item.elementIdentifier.Some? {
        var id := decoded.item.elementIdentifier.value;
        flat' := flat'[id := decoded.item.elementValue];
        bucket' := bucket'[id := decoded.item.elementValue];
      }
    }
    assert items[..|items|] == items;
    r := Some((flat', bucket'));
  }

  /** mapRawToClaims; None where decoding an inner item throws. */
  method MapRawToClaims(cr: Crypto, ns: NameSpaces) returns (r: Option<Mapped>)
    requires DistinctNames(ns)
    ensures r.None? <==> exists space :: space in ns && Crashes(cr, space.items)
    ensures r.Some? ==> r.value == Mapped(Flat(cr, ns), Namespaced(cr, ns))
  {
    var flat: Claims := map[];
    var namespaced: map<string, Claims> := map[];
    for i := 0 to |ns|
      invariant forall space :: space in ns[..i] ==> !Crashes(cr, space.items)
      invariant flat == Flat(cr, ns[..i]) && namespaced == Namespaced(cr, ns[..i])
    {
      assert ns[..i + 1][..i] == ns[..i];
      assert ns[..i + 1] == ns[..i] + [ns[i]];
      var bucket: Claims := if ns[i].name in namespaced then namespaced[ns[i].name] else map[];
      NamespacedKeys(cr, ns[..i], ns[i].name);
      var step := MapNameSpace(cr, ns[i].items, flat, bucket);
      if step.None? {
        assert ns[i] in ns;
        return None;
      }
      flat := step.value.0;
      assert map[] + Bucket(cr, ns[i].items) == Bucket(cr, ns[i].items);
      namespaced := namespaced[ns[i].name := step.value.1];
    }
    assert ns[..|ns|] == ns;
    r := Some(Mapped(flat, namespaced));
  }

  lemma {:induction false} NamespacedKeys(cr: Crypto, ns: NameSpaces, name: string)
    ensures name in Namespaced(cr, ns) <==> exists i :: 0 <= i < |ns| && ns[i].name == name
  {
    if ns != [] {
      var n := |ns| - 1;
      NamespacedKeys(cr, ns[..n], name);
      assert forall i :: 0 <= i < n ==> ns[..n][i] == ns[i];
    }
  }

  /** The claims of one name space, later items over earlier ones. */
  ghost function Bucket(cr: Crypto, items: seq<Bytes>): Claims {
    if items == [] then map[]
    else
      var before, c := Bucket(cr, items[..|items| - 1]), ClaimOf(cr, items[|items| - 1]);
      if c.Some? then before[c.value.0 := c.value.1] else before
  }

  ghost function Namespaced(cr: Crypto, ns: NameSpaces): map<string, Claims> {
    if ns == [] then map[]
    else Namespaced(cr, ns[..|ns| - 1])[ns[|ns| - 1].name := Bucket(cr, ns[|ns| - 1].items)]
  }

  ghost function Flat(cr: Crypto, ns: NameSpaces): Claims {
    if ns == [] then map[] else Flat(cr, ns[..|ns| - 1]) + Bucket(cr, ns[|ns| - 1].items)
  }

  predicate Contributes(cr: Crypto, bytes: Bytes, id: string) {
    ClaimOf(cr, bytes).Some? && ClaimOf(cr, bytes).value.0 == id
  }

  /** items[j] is the last item that contributes id. */
  ghost predicate LastContributor(cr: Crypto, items: seq<Bytes>, id: string, j: nat) {
    && j < |items| && Contributes(cr, items[j], id)
    && forall k :: j < k < |items| ==> !Contributes(cr, items[k], id)
  }

  lemma {:induction false} ContributorOf(cr: Crypto, items: seq<Bytes>, id: string) returns (j: nat)
    requires id in Bucket(cr, items)
    ensures LastContributor(cr, items, id, j) && ClaimOf(cr, items[j]).value.1 == Bucket(cr, items)[id]
  {
    var n := |items| - 1;
    if Contributes(cr, items[n], id) {
      j := n;
    } else {
      j := ContributorOf(cr, items[..n], id);
      assert forall k :: 0 <= k < n ==> items[..n][k] == items[k];
    }
  }

  lemma {:induction false} ContributorsAreKept(cr: Crypto, items: seq<Bytes>, id: string, j: nat)
    requires j < |items| && Contributes(cr, items[j], id)
    ensures id in Bucket(cr, items)
  {
    var n := |items| - 1;
    if j < n {
      assert items[..n][j] == items[j];
      ContributorsAreKept(cr, items[..n], id, j);
    }
  }

  lemma {:induction false} NamespacedAt(cr: Crypto, ns: NameSpaces, i: nat)
    requires DistinctNames(ns) && i < |ns|
    ensures ns[i].name in Namespaced(cr, ns) && Namespaced(cr, ns)[ns[i].name] == Bucket(cr, ns[i].items)
  {
    var n := |ns| - 1;
    if i < n {
      assert ns[..n][i] == ns[i];
      NamespacedAt(cr, ns[..n], i);
      assert ns[i].name != ns[n].name;
    }
  }

  /** i is the last name space that holds id. */
  ghost predicate LastHolder(cr: Crypto, ns: NameSpaces, id: string, i: nat) {
    i < |ns| && id in Bucket(cr, ns[i].items) && forall k :: i < k < |ns| ==> id !in Bucket(cr, ns[k].items)
  }

  lemma {:induction false} FlatStemsFromLastHolder(cr: Crypto, ns: NameSpaces, id: string) returns (i: nat)
    requires id in Flat(cr, ns)
    ensures LastHolder(cr, ns, id, i) && Flat(cr, ns)[id] == Bucket(cr, ns[i].items)[id]
  {
    var n := |ns| - 1;
    if id in Bucket(cr, ns[n].items) {
      i := n;
    } else {
      i := FlatStemsFromLastHolder(cr, ns[..n], id);
      assert forall k :: 0 <= k < n ==> ns[..n][k] == ns[k];
    }
  }

  /** items[j] is the last of the name space to contribute id, its value is v, and its bytes are committed. */
  ghost predicate CommittedSource(cr: Crypto, mso: Mso, space: NameSpace, id: string, j: nat, v: Value) {
    && LastContributor(cr, space.items, id, j)
    && IsCommitted(cr, mso, space.name, space.items[j])
    && v == cr.decode(space.items[j]).item.elementValue
  }

  /**
   * When the digests verified, mapping cannot throw, and every namespaced claim is the value of
   * the last item with that identifier in that name space - an item whose bytes hash to the digest
   * the MSO commits for its number there.
   */
  lemma ClaimsStemFromCommittedItems(cr: Crypto, mso: Mso, ns: NameSpaces, i: nat, id: string)
    requires DistinctNames(ns) && AllCommitted(cr, mso, ns) && i < |ns|
    ensures forall space :: space in ns ==> !Crashes(cr, space.items)
    ensures ns[i].name in Namespaced(cr, ns)
    ensures var claims := Namespaced(cr, ns)[ns[i].name];
      (id in claims <==> exists j :: 0 <= j < |ns[i].items| && Contributes(cr, ns[i].items[j], id)) &&
      (id in claims ==> exists j: nat :: CommittedSource(cr, mso, ns[i], id, j, claims[id]))
  {
    forall space | space in ns
      ensures !Crashes(cr, space.items)
    {
      forall j | 0 <= j < |space.items|
        ensures !cr.decode(space.items[j]).InnerUndecodable?
      {
        assert space.items[j] in space.items && SpaceCommitted(cr, mso, space);
      }
    }
    NamespacedAt(cr, ns, i);
    var items := ns[i].items;
    forall j | 0 <= j < |items| && Contributes(cr, items[j], id) {
      ContributorsAreKept(cr, items, id, j);
    }
    if id in Bucket(cr, items) {
      var j := ContributorOf(cr, items, id);
      assert ns[i] in ns && items[j] in items;
      assert CommittedSource(cr, mso, ns[i], id, j, Bucket(cr, items)[id]);
    }
  }

  predicate HoldsValue(namespaced: map<string, Claims>, name: string, id: string, v: Value) {
    name in namespaced && id in namespaced[name] && namespaced[name][id] == v
  }

  /** Each flat claim is the namespaced one of the last name space that holds it. */
  lemma {:induction false} FlatClaimsAreNamespaced(cr: Crypto, ns: NameSpaces, id: string)
    requires DistinctNames(ns) && id in Flat(cr, ns)
    ensures exists i: nat ::
      LastHolder(cr, ns, id, i) && HoldsValue(Namespaced(cr, ns), ns[i].name, id, Flat(cr, ns)[id])
  {
    var i := FlatStemsFromLastHolder(cr, ns, id);
    NamespacedAt(cr, ns, i);
  }

  /** Some item of some name space has that identifier. */
  ghost predicate SomeItemHas(cr: Crypto, ns: NameSpaces, id: string) {
    exists i, j :: 0 <= i < |ns| && 0 <= j < |ns[i].items| && HasIdentifier(cr, ns[i].items[j], id)
  }

  /** The bytes decode to an item with that identifier. */
  ghost predicate HasIdentifier(cr: Crypto, bytes: Bytes, id: string) {
    cr.decode(bytes).ItemMap? && cr.decode(bytes).item.elementIdentifier == Some(id)
  }

  lemma {:induction false} FlatHasEveryHolder(cr: Crypto, ns: NameSpaces, id: string, i: nat)
    requires i < |ns| && id in Bucket(cr, ns[i].items)
    ensures id in Flat(cr, ns)
  {
    var n := |ns| - 1;
    if i < n {
      assert ns[..n][i] == ns[i];
      FlatHasEveryHolder(cr, ns[..n], id, i);
    }
  }

  /** An identifier is among the flat claims exactly when some item of some name space has it. */
  lemma FlatHasExactlyTheIdentifiers(cr: Crypto, ns: NameSpaces, id: string)
    ensures id in Flat(cr, ns) <==> SomeItemHas(cr, ns, id)
  {
    if id in Flat(cr, ns) {
      var i := FlatStemsFromLastHolder(cr, ns, id);
      var j := ContributorOf(cr, ns[i].items, id);
      assert HasIdentifier(cr, ns[i].items[j], id);
    }
    forall i: nat, j: nat | i < |ns| && j < |ns[i].items| && HasIdentifier(cr, ns[i].items[j], id)
      ensures id in Flat(cr, ns)
    {
      ContributorsAreKept(cr, ns[i].items, id, j);
      FlatHasEveryHolder(cr, ns, id, i);
    }
  }
}
