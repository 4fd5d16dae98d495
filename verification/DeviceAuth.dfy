/**
 * The digest input of mdoc device authentication (section 9.1.3.4 of ISO 18013-5) and
 * the COSE Sig_structure around it (section 4.4 of RFC 9052): what a device signature binds.
 */
module DeviceAuth {
  import opened Options
  import opened ByteStrings
  import opened Cbor
  import opened SessionTranscript

  method ConcatBytes(chunks: seq<Bytes>) returns (out: array<byte>)
    ensures fresh(out) && out[..] == Concat(chunks)
  {
    var len := 0;
    for i := 0 to |chunks|
      invariant len == |Concat(chunks[..i])|
    {
      ConcatSnoc(chunks, i);
      len := len + |chunks[i]|;
    }
    assert chunks[..|chunks|] == chunks;
    out := new byte[len](_ => 0);
    var off := 0;
    for i := 0 to |chunks|
      invariant off == |Concat(chunks[..i])| && off <= len
      invariant out[..off] == Concat(chunks[..i])
    {
      ConcatSnoc(chunks, i);
      ConcatPrefix(chunks, i + 1);
      ghost var before := out[..off];
      var c := chunks[i];
      forall k | 0 <= k < |c| {
        out[off + k] := c[k];
      }
      assert out[..off] == before && out[off..off + |c|] == c;
      assert out[..off + |c|] == out[..off] + out[off..off + |c|];
      off := off + |c|;
    }
    assert out[..len] == out[..];
  }

  lemma {:induction false} ConcatSplits(xs: seq<Bytes>, ys: seq<Bytes>)
    ensures Concat(xs + ys) == Concat(xs) + Concat(ys)
  {
    if xs == [] {
      assert xs + ys == ys;
    } else {
      assert (xs + ys)[1..] == xs[1..] + ys;
      ConcatSplits(xs[1..], ys);
    }
  }

  lemma ConcatSnoc(chunks: seq<Bytes>, i: nat)
    requires i < |chunks|
    ensures Concat(chunks[..i + 1]) == Concat(chunks[..i]) + chunks[i]
  {
    assert chunks[..i + 1] == chunks[..i] + [chunks[i]];
    ConcatSplits(chunks[..i], [chunks[i]]);
  }

  lemma ConcatPrefix(chunks: seq<Bytes>, i: nat)
    requires i <= |chunks|
    ensures |Concat(chunks[..i])| <= |Concat(chunks)|
  {
    assert chunks == chunks[..i] + chunks[i..];
    ConcatSplits(chunks[..i], chunks[i..]);
  }

  datatype DeviceAuthentication = DeviceAuthentication(
    sessionTranscript: Bytes, docType: Bytes, deviceNameSpacesInner: Bytes)

  /** The pieces the builder splices together; the transcript goes in as it came. */
  function Pieces(p: DeviceAuthentication): seq<Bytes> {
    [Text(Ascii("DeviceAuthentication")), p.sessionTranscript, Text(p.docType), Tag24(p.deviceNameSpacesInner)]
  }

  function DeviceAuthenticationBytes(p: DeviceAuthentication): Bytes {
    Tag24([0x84] + Concat(Pieces(p)))
  }

  /**
   * inner announces an array of four elements and consists of the context string, the transcript as it came, the
   * document type and the wrapped name spaces.
   */
  ghost predicate Splices(inner: Bytes, p: DeviceAuthentication) {
    exists head, context, docType, nameSpaces ::
      && inner == head + (context + (p.sessionTranscript + (docType + nameSpaces)))
      && ReadHead(inner).Some? && ReadHead(inner).value.mt == 4 && ReadHead(inner).value.val == 4 && |head| == 1
      && Says(context, "DeviceAuthentication") && IsText(docType, p.docType)
      && IsTag24(nameSpaces, p.deviceNameSpacesInner)
  }

  /** inner is exactly one array, of these four elements. */
  ghost predicate IsFourElements(inner: Bytes, p: DeviceAuthentication) {
    exists context, docType, nameSpaces ::
      && IsItem(inner) && ReadArray(inner) == Some([context, p.sessionTranscript, docType, nameSpaces])
      && Says(context, "DeviceAuthentication") && IsText(docType, p.docType)
      && IsTag24(nameSpaces, p.deviceNameSpacesInner)
  }

  lemma PiecesReadBack(p: DeviceAuthentication)
    requires Fits(p)
    ensures Says(Text(Ascii("DeviceAuthentication")), "DeviceAuthentication") && IsText(Text(p.docType), p.docType)
    ensures IsTag24(Tag24(p.deviceNameSpacesInner), p.deviceNameSpacesInner)
  {
    PieceSizes(p);
    TextSays("DeviceAuthentication");
    StringItemsReadBack(p.docType);
    Tag24ReadsBack(p.deviceNameSpacesInner, []);
    assert Tag24(p.deviceNameSpacesInner) + [] == Tag24(p.deviceNameSpacesInner);
  }

  lemma InnerSplices(p: DeviceAuthentication)
    requires Fits(p)
    ensures Splices([0x84] + Concat(Pieces(p)), p)
  {
    PiecesReadBack(p);
    ConcatPieces(p);
    assert [0x84] + Concat(Pieces(p)) == EncodeHead(4, 4) + Concat(Pieces(p));
    EncodedHeadReadsBack(4, 4, Concat(Pieces(p)));
  }

  lemma InnerIsFourElements(p: DeviceAuthentication)
    requires Fits(p) && IsItem(p.sessionTranscript)
    ensures IsFourElements([0x84] + Concat(Pieces(p)), p)
  {
    PiecesReadBack(p);
    PiecesAreItems(p);
    assert [0x84] + Concat(Pieces(p)) == Array(Pieces(p));
    ArrayIsItem(Pieces(p));
    ArrayReadsBack(Pieces(p));
  }

  /** The result wraps one string; for a well-formed transcript that is one array, whose elements read back. */
  method BuildDeviceAuthenticationBytes(p: DeviceAuthentication) returns (out: Bytes)
    ensures out == DeviceAuthenticationBytes(p)
    ensures Fits(p) ==> exists inner :: IsTag24(out, inner) && Splices(inner, p)
    ensures Fits(p) && IsItem(p.sessionTranscript) ==> exists inner :: IsTag24(out, inner) && IsFourElements(inner, p)
  {
    if Fits(p) { WrappedReadsBack(p); }
    var tagged := EncodeTag24(p.deviceNameSpacesInner);
    var chunks := [[0x84], Text(Ascii("DeviceAuthentication")), p.sessionTranscript, Text(p.docType), tagged];
    var deviceAuthentication := ConcatBytes(chunks);
    assert chunks[1..] == Pieces(p);
    out := EncodeTag24(deviceAuthentication[..]);
  }

  method EncodeTag24(inner: Bytes) returns (out: Bytes)
    ensures out == Tag24(inner)
  {
    var chunks := [[0xd8, 0x18], ByteString(inner)];
    var bytes := ConcatBytes(chunks);
    assert chunks[1..] == [ByteString(inner)];
    assert Concat([ByteString(inner)]) == ByteString(inner) + [];
    out := bytes[..];
  }

  lemma WrappedReadsBack(p: DeviceAuthentication)
    requires Fits(p)
    ensures exists inner :: IsTag24(DeviceAuthenticationBytes(p), inner) && Splices(inner, p)
    ensures IsItem(p.sessionTranscript) ==>
      exists inner :: IsTag24(DeviceAuthenticationBytes(p), inner) && IsFourElements(inner, p)
  {
    var inner := [0x84] + Concat(Pieces(p));
    PieceSizes(p);
    Tag24ReadsBack(inner, []);
    assert Tag24(inner) + [] == Tag24(inner);
    InnerSplices(p);
    if IsItem(p.sessionTranscript) { InnerIsFourElements(p); }
  }

  function SigStructure(protectedBytes: Bytes, deviceAuthBytes: Bytes): Bytes {
    Array([Text(Ascii("Signature1")), ByteString(protectedBytes), ByteString([]), ByteString(deviceAuthBytes)])
  }

  function SignatureInput(protectedBytes: Bytes, p: DeviceAuthentication): Bytes {
    SigStructure(protectedBytes, DeviceAuthenticationBytes(p))
  }

  /** Everything together stays below the length of the longest JavaScript byte array, 2^53 - 1. */
  predicate Fits(p: DeviceAuthentication) {
    |p.sessionTranscript| + |p.docType| + |p.deviceNameSpacesInner| < 0x1f_ffff_ffff_ff00
  }

  lemma ConcatPieces(p: DeviceAuthentication)
    ensures Concat(Pieces(p)) ==
      Text(Ascii("DeviceAuthentication")) + (p.sessionTranscript + (Text(p.docType) + Tag24(p.deviceNameSpacesInner)))
  {
    var ps := Pieces(p);
    assert ps[1..] == [ps[1], ps[2], ps[3]];
    assert [ps[1], ps[2], ps[3]][1..] == [ps[2], ps[3]];
    assert [ps[2], ps[3]][1..] == [ps[3]];
    assert Concat([ps[3]]) == ps[3] + [] == ps[3];
    assert Concat([ps[2], ps[3]]) == ps[2] + ps[3];
  }

  lemma PieceSizes(p: DeviceAuthentication)
    requires Fits(p)
    ensures |[0x84] + Concat(Pieces(p))| < MAX_ARGUMENT && |DeviceAuthenticationBytes(p)| < MAX_ARGUMENT
    ensures |p.docType| < MAX_ARGUMENT && |p.deviceNameSpacesInner| < MAX_ARGUMENT
  {
    ConcatPieces(p);
  }

  lemma DeviceAuthenticationIsInjective(p: DeviceAuthentication, p': DeviceAuthentication)
    requires IsItem(p.sessionTranscript) && IsItem(p'.sessionTranscript) && Fits(p) && Fits(p')
    requires DeviceAuthenticationBytes(p) == DeviceAuthenticationBytes(p')
    ensures p == p'
  {
    PieceSizes(p);
    PieceSizes(p');
    Tag24IsInjective([0x84] + Concat(Pieces(p)), [0x84] + Concat(Pieces(p')));
    assert Concat(Pieces(p)) == ([0x84] + Concat(Pieces(p)))[1..];
    assert Concat(Pieces(p')) == ([0x84] + Concat(Pieces(p')))[1..];
    PiecesAreItems(p);
    PiecesAreItems(p');
    ConcatIsInjective(Pieces(p), Pieces(p'));
    assert forall i :: 0 <= i < 4 ==> Pieces(p)[i] == Pieces(p')[i];
    StringsAreInjective(p.docType, p'.docType);
    Tag24IsInjective(p.deviceNameSpacesInner, p'.deviceNameSpacesInner);
  }

  lemma PiecesAreItems(p: DeviceAuthentication)
    requires IsItem(p.sessionTranscript) && Fits(p)
    ensures AllItems(Pieces(p))
  {
    PieceSizes(p);
    StringsAreItems(Ascii("DeviceAuthentication"));
    StringsAreItems(p.docType);
    Tag24IsItem(p.deviceNameSpacesInner);
  }

  lemma SigStructureIsInjective(a: Bytes, b: Bytes, a': Bytes, b': Bytes)
    requires Short(a) && Short(b) && Short(a') && Short(b')
    requires SigStructure(a, b) == SigStructure(a', b')
    ensures a == a' && b == b'
  {
    var xs := [Text(Ascii("Signature1")), ByteString(a), ByteString([]), ByteString(b)];
    var ys := [Text(Ascii("Signature1")), ByteString(a'), ByteString([]), ByteString(b')];
    StringsAreItems(Ascii("Signature1"));
    StringsAreItems([]);
    StringsAreItems(a);
    StringsAreItems(b);
    StringsAreItems(a');
    StringsAreItems(b');
    ArrayIsInjective(xs, ys);
    assert xs[1] == ys[1] && xs[3] == ys[3];
    StringsAreInjective(a, a');
    StringsAreInjective(b, b');
  }

  /** The structure read back: ["Signature1", protected header, empty string, payload]. */
  lemma SigStructureReadsBack(a: Bytes, b: Bytes)
    requires Short(a) && Short(b)
    ensures exists context, prot, external, payload ::
      && ReadArray(SigStructure(a, b)) == Some([context, prot, external, payload])
      && Says(context, "Signature1") && IsByteString(prot, a) && IsByteString(external, []) && IsByteString(payload, b)
  {
    StringsAreItems(Ascii("Signature1"));
    TextSays("Signature1");
    StringsAreItems(a);
    StringsAreItems([]);
    StringsAreItems(b);
    StringItemsReadBack(a);
    StringItemsReadBack([]);
    StringItemsReadBack(b);
    FourReadBack(Text(Ascii("Signature1")), ByteString(a), ByteString([]), ByteString(b));
  }

  lemma FourReadBack(a: Bytes, b: Bytes, c: Bytes, d: Bytes)
    requires IsItem(a) && IsItem(b) && IsItem(c) && IsItem(d)
    ensures ReadArray(Array([a, b, c, d])) == Some([a, b, c, d])
  {
    FourAreItems(a, b, c, d);
    ArrayReadsBack([a, b, c, d]);
  }

  /**
   * Whatever well-formed transcripts are spliced in, equal signature inputs come from the same
   * protected header, transcript, document type and device name spaces.
   */
  lemma SignatureInputIsInjective(prot: Bytes, p: DeviceAuthentication, prot': Bytes, p': DeviceAuthentication)
    requires IsItem(p.sessionTranscript) && IsItem(p'.sessionTranscript) && Fits(p) && Fits(p')
    requires Short(prot) && Short(prot')
    requires SignatureInput(prot, p) == SignatureInput(prot', p')
    ensures prot == prot' && p == p'
  {
    PieceSizes(p);
    PieceSizes(p');
    SigStructureIsInjective(prot, DeviceAuthenticationBytes(p), prot', DeviceAuthenticationBytes(p'));
    DeviceAuthenticationIsInjective(p, p');
  }

  /** The well-formedness of the transcript is needed: here an ill-formed one shifts bytes into the document type. */
  lemma IllFormedTranscriptCollides(nameSpaces: Bytes)
    ensures
      var p := DeviceAuthentication([], Ascii("ab"), nameSpaces);
      var p' := DeviceAuthentication([0x62], Ascii("b"), nameSpaces);
      p != p' && DeviceAuthenticationBytes(p) == DeviceAuthenticationBytes(p')
  {
    var p := DeviceAuthentication([], Ascii("ab"), nameSpaces);
    var p' := DeviceAuthentication([0x62], Ascii("b"), nameSpaces);
    var end := Tag24(nameSpaces);
    assert Text(Ascii("ab")) == [0x62] + Text(Ascii("b"));
    ConcatPieces(p);
    ConcatPieces(p');
    assert [] + (Text(Ascii("ab")) + end) == [0x62] + (Text(Ascii("b")) + end);
  }

  // ----- Which transcripts can be told apart -----

  /** What follows the transcript. */
  function Tail(p: DeviceAuthentication): Bytes {
    Text(p.docType) + Tag24(p.deviceNameSpacesInner)
  }

  lemma SameBytesSameSplice(p: DeviceAuthentication, p': DeviceAuthentication)
    requires Fits(p) && Fits(p')
    ensures DeviceAuthenticationBytes(p) == DeviceAuthenticationBytes(p') <==>
      p.sessionTranscript + Tail(p) == p'.sessionTranscript + Tail(p')
  {
    PieceSizes(p);
    PieceSizes(p');
    ConcatPieces(p);
    ConcatPieces(p');
    var context := Text(Ascii("DeviceAuthentication"));
    if DeviceAuthenticationBytes(p) == DeviceAuthenticationBytes(p') {
      Tag24IsInjective([0x84] + Concat(Pieces(p)), [0x84] + Concat(Pieces(p')));
      CutFront([0x84], Concat(Pieces(p)), [0x84], Concat(Pieces(p')));
      CutFront(context, p.sessionTranscript + Tail(p), context, p'.sessionTranscript + Tail(p'));
    }
  }

  lemma TailIsInjective(p: DeviceAuthentication, p': DeviceAuthentication)
    requires Fits(p) && Fits(p') && Tail(p) == Tail(p')
    ensures p.docType == p'.docType && p.deviceNameSpacesInner == p'.deviceNameSpacesInner
  {
    PieceSizes(p);
    PieceSizes(p');
    StringsAreItems(p.docType);
    StringsAreItems(p'.docType);
    ItemsArePrefixFree(Text(p.docType), Tag24(p.deviceNameSpacesInner),
                       Text(p'.docType), Tag24(p'.deviceNameSpacesInner));
    StringsAreInjective(p.docType, p'.docType);
    Tag24IsInjective(p.deviceNameSpacesInner, p'.deviceNameSpacesInner);
  }

  /** The transcript of p' is that of p with bytes u appended, which p has first behind its transcript. */
  ghost predicate Shifts(p: DeviceAuthentication, p': DeviceAuthentication, u: Bytes) {
    u != [] && p'.sessionTranscript == p.sessionTranscript + u && Tail(p) == u + Tail(p')
  }

  /**
   * For any transcripts: two different inputs give the same bytes exactly when one transcript is the other
   * with bytes appended that the other input has first behind its transcript. Transcripts of which neither
   * begins with the other are always told apart.
   */
  lemma CollisionsAreShifts(p: DeviceAuthentication, p': DeviceAuthentication)
    requires Fits(p) && Fits(p') && p != p'
    ensures DeviceAuthenticationBytes(p) == DeviceAuthenticationBytes(p') <==>
      exists u :: Shifts(p, p', u) || Shifts(p', p, u)
  {
    SameBytesSameSplice(p, p');
    if DeviceAuthenticationBytes(p) == DeviceAuthenticationBytes(p') { SpliceShifts(p, p'); }
    forall u | Shifts(p, p', u) || Shifts(p', p, u)
      ensures p.sessionTranscript + Tail(p) == p'.sessionTranscript + Tail(p')
    {
      if Shifts(p, p', u) { ShiftKeepsSplice(p, p', u); } else { ShiftKeepsSplice(p', p, u); }
    }
  }

  lemma SpliceShifts(p: DeviceAuthentication, p': DeviceAuthentication)
    requires Fits(p) && Fits(p') && p != p' && p.sessionTranscript + Tail(p) == p'.sessionTranscript + Tail(p')
    ensures exists u :: Shifts(p, p', u) || Shifts(p', p, u)
  {
    var t, t' := p.sessionTranscript, p'.sessionTranscript;
    if |t| < |t'| {
      ShiftFound(p, p');
    } else if |t'| < |t| {
      ShiftFound(p', p);
    } else {
      CutFront(t, Tail(p), t', Tail(p'));
      TailIsInjective(p, p');
    }
  }

  lemma ShiftKeepsSplice(p: DeviceAuthentication, p': DeviceAuthentication, u: Bytes)
    requires Shifts(p, p', u)
    ensures p.sessionTranscript + Tail(p) == p'.sessionTranscript + Tail(p')
  {
    assert p.sessionTranscript + (u + Tail(p')) == (p.sessionTranscript + u) + Tail(p');
  }

  lemma ShiftFound(p: DeviceAuthentication, p': DeviceAuthentication)
    requires p.sessionTranscript + Tail(p) == p'.sessionTranscript + Tail(p')
    requires |p.sessionTranscript| < |p'.sessionTranscript|
    ensures Shifts(p, p', p'.sessionTranscript[|p.sessionTranscript|..])
  {
    var t, t' := p.sessionTranscript, p'.sessionTranscript;
    var n, u := |t|, t'[|t|..];
    assert t' == t'[..n] + u;
    assert t' + Tail(p') == t'[..n] + (u + Tail(p'));
    CutFront(t, Tail(p), t'[..n], u + Tail(p'));
  }

  /** The shifted bytes begin with a text head and are no item: one of the two transcripts is ill-formed. */
  lemma ShiftsAreIllFormed(p: DeviceAuthentication, p': DeviceAuthentication, u: Bytes)
    requires Fits(p) && Fits(p') && Shifts(p, p', u)
    ensures 0x60 <= u[0] < 0x7c && !IsItem(u)
    ensures !(IsItem(p.sessionTranscript) && IsItem(p'.sessionTranscript))
  {
    PieceSizes(p);
    StringsAreItems(p.docType);
    assert u[0] == (u + Tail(p'))[0] == Text(p.docType)[0];
    assert Tail(p')[0] == Text(p'.docType)[0] && Tag24(p.deviceNameSpacesInner)[0] == 0xd8;
    if IsItem(u) {
      ItemsArePrefixFree(Text(p.docType), Tag24(p.deviceNameSpacesInner), u, Tail(p'));
    }
    if IsItem(p.sessionTranscript) && IsItem(p'.sessionTranscript) {
      assert p.sessionTranscript + u == p'.sessionTranscript + [];
      ItemsArePrefixFree(p.sessionTranscript, u, p'.sessionTranscript, []);
    }
  }

  /**
   * End to end for ISO 18013-7: a signature input fixes the session parameters, the document type
   * and the name spaces, unless two of the hashed inputs collide.
   */
  lemma SignatureBindsIsoSession(prot: Bytes, s: Session, docType: Bytes, ns: Bytes,
                                 prot': Bytes, s': Session, docType': Bytes, ns': Bytes, hash: Hash)
    requires ShortSession(s) && ShortSession(s') && Short(prot) && Short(prot') && Has32ByteOutput(hash)
    requires Fits(DeviceAuthentication(Oid4vpTranscript(s, hash), docType, ns))
    requires Fits(DeviceAuthentication(Oid4vpTranscript(s', hash), docType', ns'))
    requires SignatureInput(prot, DeviceAuthentication(Oid4vpTranscript(s, hash), docType, ns))
          == SignatureInput(prot', DeviceAuthentication(Oid4vpTranscript(s', hash), docType', ns'))
    ensures prot == prot' && docType == docType' && ns == ns'
    ensures s == s' || Collide(hash, ClientIdInput(s), ClientIdInput(s'))
                    || Collide(hash, ResponseUriInput(s), ResponseUriInput(s'))
  {
    var f := FinalSession([], [], [], None);
    TranscriptsAreItems(s, f, hash);
    TranscriptsAreItems(s', f, hash);
    SignatureInputIsInjective(prot, DeviceAuthentication(Oid4vpTranscript(s, hash), docType, ns),
                              prot', DeviceAuthentication(Oid4vpTranscript(s', hash), docType', ns'));
    Oid4vpTranscriptBinds(s, s', hash);
  }

  /**
   * End to end for OpenID4VP 1.0: a signature input fixes the session parameters with the thumbprint or its
   * absence, the document type and the name spaces, unless the two hashed handovers collide.
   */
  lemma SignatureBindsFinalSession(prot: Bytes, s: FinalSession, docType: Bytes, ns: Bytes,
                                   prot': Bytes, s': FinalSession, docType': Bytes, ns': Bytes, hash: Hash)
    requires ShortFinalSession(s) && ShortFinalSession(s') && Short(prot) && Short(prot') && Has32ByteOutput(hash)
    requires OpenID4VPTranscript(s, hash).Some? && OpenID4VPTranscript(s', hash).Some?
    requires Fits(DeviceAuthentication(OpenID4VPTranscript(s, hash).value, docType, ns))
    requires Fits(DeviceAuthentication(OpenID4VPTranscript(s', hash).value, docType', ns'))
    requires SignatureInput(prot, DeviceAuthentication(OpenID4VPTranscript(s, hash).value, docType, ns))
          == SignatureInput(prot', DeviceAuthentication(OpenID4VPTranscript(s', hash).value, docType', ns'))
    ensures prot == prot' && docType == docType' && ns == ns'
    ensures
      var t, t' := SessionThumbprint(s, hash).value, SessionThumbprint(s', hash).value;
      (s.clientId == s'.clientId && s.nonce == s'.nonce && s.responseUri == s'.responseUri && t == t')
      || Collide(hash, HandoverInfo(s, t), HandoverInfo(s', t'))
  {
    var iso := Session([], [], [], []);
    TranscriptsAreItems(iso, s, hash);
    TranscriptsAreItems(iso, s', hash);
    SignatureInputIsInjective(prot, DeviceAuthentication(OpenID4VPTranscript(s, hash).value, docType, ns),
                              prot', DeviceAuthentication(OpenID4VPTranscript(s', hash).value, docType', ns'));
    OpenID4VPTranscriptBinds(s, s', hash);
  }

  /** A signature made for one profile is never valid input for the other. */
  lemma SignatureInputsOfProfilesDiffer(prot: Bytes, s: Session, docType: Bytes, ns: Bytes,
                                        prot': Bytes, f: FinalSession, docType': Bytes, ns': Bytes, hash: Hash)
    requires ShortSession(s) && ShortFinalSession(f) && Short(prot) && Short(prot') && Has32ByteOutput(hash)
    requires OpenID4VPTranscript(f, hash).Some?
    requires Fits(DeviceAuthentication(Oid4vpTranscript(s, hash), docType, ns))
    requires Fits(DeviceAuthentication(OpenID4VPTranscript(f, hash).value, docType', ns'))
    ensures SignatureInput(prot, DeviceAuthentication(Oid4vpTranscript(s, hash), docType, ns))
         != SignatureInput(prot', DeviceAuthentication(OpenID4VPTranscript(f, hash).value, docType', ns'))
  {
    TranscriptsAreItems(s, f, hash);
    ProfilesNeverCoincide(s, f, hash);
    var p := DeviceAuthentication(Oid4vpTranscript(s, hash), docType, ns);
    var q := DeviceAuthentication(OpenID4VPTranscript(f, hash).value, docType', ns');
    if SignatureInput(prot, p) == SignatureInput(prot', q) {
      SignatureInputIsInjective(prot, p, prot', q);
    }
  }
}
