/**
 * The digest and claim steps of the mdoc parser together: from the decoded elements of the
 * nameSpaces map, through the item bytes that are hashed, to the claims.
 */
module MdocParser {
  import opened Options
  import opened ByteStrings
  import opened IssuerSignedItem
  import opened MdocClaims
  import Cbor

  /** An entry of the decoded nameSpaces map; a key that is no string or a value that is no array is None. */
  datatype RawSpace = RawSpace(name: Option<string>, elements: Option<seq<Element>>)

  /** The keys of a map are distinct. */
  ghost predicate DistinctKeys(raw: seq<RawSpace>) {
    forall i, j :: 0 <= i < j < |raw| && raw[i].name.Some? ==> raw[i].name != raw[j].name
  }

  ghost predicate WellShaped(raw: RawSpace) {
    && raw.name.Some? && raw.elements.Some?
    && forall j :: 0 <= j < |raw.elements.value| ==> ExtractRawItemBytes(raw.elements.value[j]).Some?
  }

  ghost predicate AllWellShaped(raw: seq<RawSpace>) {
    forall i :: 0 <= i < |raw| ==> WellShaped(raw[i])
  }

  /** The name space with the item bytes of each element in place. */
  ghost function SpaceOf(raw: RawSpace): NameSpace
    requires WellShaped(raw)
  {
    var elements := raw.elements.value;
    NameSpace(raw.name.value,
              seq(|elements|, j requires 0 <= j < |elements| => ExtractRawItemBytes(elements[j]).value))
  }

  ghost function SpacesOf(raw: seq<RawSpace>): NameSpaces
    requires AllWellShaped(raw)
  {
    seq(|raw|, i requires 0 <= i < |raw| => SpaceOf(raw[i]))
  }

  method ExtractItems(elements: seq<Element>) returns (r: Option<seq<Bytes>>)
    ensures r.None? <==> exists j :: 0 <= j < |elements| && ExtractRawItemBytes(elements[j]).None?
    ensures r.Some? ==> |r.value| == |elements|
    ensures r.Some? ==> forall j :: 0 <= j < |elements| ==> ExtractRawItemBytes(elements[j]) == Some(r.value[j])
  {
    var items: seq<Bytes> := [];
    for j := 0 to |elements|
      invariant |items| == j
      invariant forall k :: 0 <= k < j ==> ExtractRawItemBytes(elements[k]) == Some(items[k])
    {
      var bytes := ExtractRawItemBytes(elements[j]);
      if bytes.None? {
        return None;
      }
      items := items + [bytes.value];
    }
    r := Some(items);
  }

  /** None where the parser throws a malformed-credential error. */
  method ExtractNameSpaces(raw: seq<RawSpace>) returns (r: Option<NameSpaces>)
    ensures r.Some? <==> AllWellShaped(raw)
    ensures r.Some? ==> r.value == SpacesOf(raw)
  {
    var ns: NameSpaces := [];
    for i := 0 to |raw|
      invariant AllWellShaped(raw[..i]) && ns == SpacesOf(raw[..i])
    {
      if raw[i].name.None? || raw[i].elements.None? {
        return None;
      }
      var items := ExtractItems(raw[i].elements.value);
      if items.None? {
        return None;
      }
      assert raw[..i + 1] == raw[..i] + [raw[i]];
      ns := ns + [NameSpace(raw[i].name.value, items.value)];
      assert ns[i].items == SpaceOf(raw[i]).items;
    }
    assert raw[..|raw|] == raw;
    r := Some(ns);
  }

  lemma ExtractedNamesAreDistinct(raw: seq<RawSpace>)
    requires DistinctKeys(raw) && AllWellShaped(raw)
    ensures DistinctNames(SpacesOf(raw))
  {
    var ns := SpacesOf(raw);
    forall i, j | 0 <= i < j < |ns|
      ensures ns[i].name != ns[j].name
    {
      assert ns[i] == SpaceOf(raw[i]) && ns[j] == SpaceOf(raw[j]);
    }
  }

  datatype Parsed =
    | Valid(mapped: Mapped, log: seq<LogEntry>, digestMismatchIgnored: bool)
    | Invalid(log: seq<LogEntry>)
    | Threw

  /** Step 7 and step 8 of the parser; device authentication stands between them and changes nothing. */
  method ParseItems(cr: Crypto, raw: seq<RawSpace>, mso: Mso, allowDigestMismatch: bool) returns (r: Parsed)
    requires DistinctKeys(raw)
    ensures !r.Threw? <==> AllWellShaped(raw) && AllLoggable(cr, mso, SpacesOf(raw))
    ensures !r.Threw? ==> (r.Invalid? <==> !allowDigestMismatch && !AllCommitted(cr, mso, SpacesOf(raw)))
    ensures r.Valid? ==> r.mapped == Mapped(Flat(cr, SpacesOf(raw)), Namespaced(cr, SpacesOf(raw)))
    ensures r.Valid? ==> (r.digestMismatchIgnored <==> !AllCommitted(cr, mso, SpacesOf(raw)))
    ensures !r.Threw? ==> |r.log| == ItemCount(SpacesOf(raw))
    ensures !r.Threw? ==> (NoMismatch(r.log) <==> AllCommitted(cr, mso, SpacesOf(raw)))
  {
    var extracted := ExtractNameSpaces(raw);
    if extracted.None? {
      return Threw;
    }
    var ns := extracted.value;
    ExtractedNamesAreDistinct(raw);
    var digests := VerifyAllDigests(cr, ns, mso);
    if digests.Malformed? || digests.Crashed? {
      return Threw;
    }
    if digests.Mismatch? && !allowDigestMismatch {
      return Invalid(digests.log);
    }
    LoggableNeverCrashes(cr, mso, ns);
    var mapped := MapRawToClaims(cr, ns);
    r := Valid(mapped.value, digests.log, digests.Mismatch?);
  }

  lemma LoggableNeverCrashes(cr: Crypto, mso: Mso, ns: NameSpaces)
    requires AllLoggable(cr, mso, ns)
    ensures forall space :: space in ns ==> !Crashes(cr, space.items)
  {
    forall space | space in ns
      ensures !Crashes(cr, space.items)
    {
      assert Loggable(cr, mso, space);
      assert forall j :: 0 <= j < |space.items| ==> CheckItem(cr, mso, space.name, space.items[j]).Some?;
    }
  }

  /** bytes are the element's complete tag-24 item, in shortest form unless the element arrived wrapped. */
  predicate IsFullItem(element: Element, bytes: Bytes) {
    match element
    case Tagged(tag, content) => tag == 24 && content.Some? && bytes == Cbor.Tag24(content.value)
    case Plain(bs) => bytes == if HasTag24Prefix(bs) then bs else Cbor.Tag24(bs)
    case Embedded(inner) => bytes == Cbor.Tag24(inner)
    case Other => false
  }

  /** No JavaScript byte array is longer than 2^53 - 1. */
  predicate FitsArray(element: Element) {
    match element
    case Tagged(_, content) => content.Some? ==> |content.value| < MAX_SAFE_LENGTH
    case Plain(bs) => |bs| < MAX_SAFE_LENGTH
    case Embedded(inner) => |inner| < MAX_SAFE_LENGTH
    case Other => true
  }

  lemma ExtractedIsFullItem(element: Element, bytes: Bytes)
    requires FitsArray(element) && ExtractRawItemBytes(element) == Some(bytes)
    ensures IsFullItem(element, bytes) && HasTag24Prefix(bytes)
  {
    match element
    case Tagged(_, content) => WrapReadsBack(content.value, []);
    case Plain(bs) => if !HasTag24Prefix(bs) { WrapReadsBack(bs, []); }
    case Embedded(inner) => WrapReadsBack(inner, []);
  }

  /**
   * The j-th element of the name space contributes id with the value v, and its complete tag-24 bytes hash to
   * the digest the MSO commits for its number there.
   */
  ghost predicate CommittedElement(cr: Crypto, mso: Mso, raw: RawSpace, id: string, j: nat, v: Value) {
    && raw.name.Some? && raw.elements.Some? && j < |raw.elements.value|
    && ExtractRawItemBytes(raw.elements.value[j]).Some?
    && var bytes := ExtractRawItemBytes(raw.elements.value[j]).value;
       && IsFullItem(raw.elements.value[j], bytes) && HasTag24Prefix(bytes)
       && cr.decode(bytes).ItemMap?
       && var item := cr.decode(bytes).item;
          && item.elementIdentifier == Some(id) && item.elementValue == v
          && mso.digestAlgorithm in {"SHA-256", "SHA-384", "SHA-512"} && item.digestID.Some?
          && raw.name.value in mso.valueDigests && item.digestID.value in mso.valueDigests[raw.name.value]
          && mso.valueDigests[raw.name.value][item.digestID.value] == cr.hash(mso.digestAlgorithm, bytes)
  }

  /**
   * End to end: when a parse succeeded and no digest mismatch was ignored, every namespaced claim comes from a
   * decoded element whose complete tag-24 bytes the issuer committed to.
   */
  lemma ClaimsStemFromDecodedElements(cr: Crypto, mso: Mso, raw: seq<RawSpace>, i: nat, id: string)
    requires DistinctKeys(raw) && AllWellShaped(raw) && AllCommitted(cr, mso, SpacesOf(raw)) && i < |raw|
    requires forall element :: element in raw[i].elements.value ==> FitsArray(element)
    ensures var namespaced, name := Namespaced(cr, SpacesOf(raw)), raw[i].name.value;
      name in namespaced &&
      (id in namespaced[name] ==> exists j: nat :: CommittedElement(cr, mso, raw[i], id, j, namespaced[name][id]))
  {
    var ns, name := SpacesOf(raw), raw[i].name.value;
    ExtractedNamesAreDistinct(raw);
    assert ns[i] == SpaceOf(raw[i]);
    ClaimsStemFromCommittedItems(cr, mso, ns, i, id);
    if id in Namespaced(cr, ns)[name] {
      var v := Namespaced(cr, ns)[name][id];
      var j: nat :| CommittedSource(cr, mso, ns[i], id, j, v);
      var element := raw[i].elements.value[j];
      assert element in raw[i].elements.value;
      assert ExtractRawItemBytes(element) == Some(ns[i].items[j]);
      ExtractedIsFullItem(element, ns[i].items[j]);
      CommittedMeans(cr, mso, name, ns[i].items[j]);
      assert CommittedElement(cr, mso, raw[i], id, j, v);
    }
  }
}
