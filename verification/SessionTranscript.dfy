/**
 * The two SessionTranscript builders: `OID4VPHandover` (Annex B of ISO 18013-7) and
 * `OpenID4VPHandover` (section B.2.6 of OpenID4VP 1.0). Strings are their UTF-8 bytes.
 * Nothing is assumed of the hash but its output length: each binding theorem ends in
 * "the sessions agree, or these two byte strings are a hash collision".
 */
module SessionTranscript {
  import opened Options
  import opened ByteStrings
  import opened Cbor

  type Hash = Bytes -> Bytes

  ghost predicate Has32ByteOutput(hash: Hash) {
    forall x :: |hash(x)| == 32
  }

  ghost predicate Collide(hash: Hash, a: Bytes, b: Bytes) {
    a != b && hash(a) == hash(b)
  }

  function Ascii(s: string): (bs: Bytes)
    ensures |bs| == |s|
  {
    seq(|s|, i requires 0 <= i < |s| => s[i] as int % 256)
  }

  // ----- ISO 18013-7 -----

  datatype Session = Session(clientId: Bytes, responseUri: Bytes, nonce: Bytes, walletNonce: Bytes)

  /** No JavaScript string or array reaches the largest CBOR length. */
  predicate Short(bs: Bytes) {
    |bs| < MAX_ARGUMENT
  }

  predicate ShortSession(s: Session) {
    Short(s.clientId) && Short(s.responseUri) && Short(s.nonce) && Short(s.walletNonce)
  }

  function ClientIdInput(s: Session): Bytes {
    Array([Text(s.clientId), Text(s.walletNonce)])
  }

  function ResponseUriInput(s: Session): Bytes {
    Array([Text(s.responseUri), Text(s.walletNonce)])
  }

  function Oid4vpHandover(s: Session, hash: Hash): seq<Bytes> {
    [ByteString(hash(ClientIdInput(s))), ByteString(hash(ResponseUriInput(s))), Text(s.nonce)]
  }

  function Oid4vpTranscript(s: Session, hash: Hash): Bytes {
    Array([NULL, NULL, Array(Oid4vpHandover(s, hash))])
  }

  lemma TextPairIsInjective(a: Bytes, b: Bytes, a': Bytes, b': Bytes)
    requires Short(a) && Short(b) && Short(a') && Short(b')
    requires Array([Text(a), Text(b)]) == Array([Text(a'), Text(b')])
    ensures a == a' && b == b'
  {
    StringsAreItems(a);
    StringsAreItems(b);
    StringsAreItems(a');
    StringsAreItems(b');
    var xs, ys := [Text(a), Text(b)], [Text(a'), Text(b')];
    ArrayIsInjective(xs, ys);
    assert xs[0] == ys[0] && xs[1] == ys[1];
    StringsAreInjective(a, a');
    StringsAreInjective(b, b');
  }

  lemma NullIsItem()
    ensures IsItem(NULL) && ScanItem(NULL, false).mt == 7
  {
    assert ReadHead(NULL) == Some(Head(7, 22, 22, []));
  }

  lemma TranscriptShape(handover: seq<Bytes>)
    requires AllItems(handover) && |handover| < MAX_ARGUMENT
    ensures AllItems([NULL, NULL, Array(handover)])
    ensures IsItem(Array([NULL, NULL, Array(handover)]))
  {
    NullIsItem();
    ArrayIsItem(handover);
    ArrayIsItem([NULL, NULL, Array(handover)]);
  }

  lemma SameTranscriptSameHandover(a: seq<Bytes>, b: seq<Bytes>)
    requires AllItems(a) && AllItems(b) && |a| < MAX_ARGUMENT && |b| < MAX_ARGUMENT
    requires Array([NULL, NULL, Array(a)]) == Array([NULL, NULL, Array(b)])
    ensures a == b
  {
    TranscriptShape(a);
    TranscriptShape(b);
    var xs, ys := [NULL, NULL, Array(a)], [NULL, NULL, Array(b)];
    ArrayIsInjective(xs, ys);
    assert xs[2] == ys[2];
    ArrayIsInjective(a, b);
  }

  lemma Oid4vpHandoverItems(s: Session, hash: Hash)
    requires ShortSession(s) && Has32ByteOutput(hash)
    ensures AllItems(Oid4vpHandover(s, hash))
  {
    StringsAreItems(hash(ClientIdInput(s)));
    StringsAreItems(hash(ResponseUriInput(s)));
    StringsAreItems(s.nonce);
  }

  /** Equal ISO 18013-7 transcripts come from the same session, or exhibit a hash collision. */
  lemma Oid4vpTranscriptBinds(s: Session, s': Session, hash: Hash)
    requires ShortSession(s) && ShortSession(s') && Has32ByteOutput(hash)
    requires Oid4vpTranscript(s, hash) == Oid4vpTranscript(s', hash)
    ensures s == s' || Collide(hash, ClientIdInput(s), ClientIdInput(s'))
                    || Collide(hash, ResponseUriInput(s), ResponseUriInput(s'))
  {
    Oid4vpHandoverItems(s, hash);
    Oid4vpHandoverItems(s', hash);
    var h, h' := Oid4vpHandover(s, hash), Oid4vpHandover(s', hash);
    SameTranscriptSameHandover(h, h');
    assert h[0] == h'[0] && h[1] == h'[1] && h[2] == h'[2];
    StringsAreInjective(hash(ClientIdInput(s)), hash(ClientIdInput(s')));
    StringsAreInjective(hash(ResponseUriInput(s)), hash(ResponseUriInput(s')));
    StringsAreInjective(s.nonce, s'.nonce);
    if ClientIdInput(s) == ClientIdInput(s') && ResponseUriInput(s) == ResponseUriInput(s') {
      TextPairIsInjective(s.clientId, s.walletNonce, s'.clientId, s'.walletNonce);
      TextPairIsInjective(s.responseUri, s.walletNonce, s'.responseUri, s'.walletNonce);
    }
  }

  /** item is the byte string of the hash of the array of the two texts. */
  ghost predicate HashesTextPair(item: Bytes, a: Bytes, b: Bytes, hash: Hash) {
    exists pair, x, y ::
      IsByteString(item, hash(pair)) && ReadArray(pair) == Some([x, y]) && IsText(x, a) && IsText(y, b)
  }

  lemma TextPairHashes(a: Bytes, b: Bytes, hash: Hash)
    requires Short(a) && Short(b) && Has32ByteOutput(hash)
    ensures HashesTextPair(ByteString(hash(Array([Text(a), Text(b)]))), a, b, hash)
  {
    StringsAreItems(a);
    StringsAreItems(b);
    StringItemsReadBack(a);
    StringItemsReadBack(b);
    var pair := Array([Text(a), Text(b)]);
    ArrayReadsBack([Text(a), Text(b)]);
    StringItemsReadBack(hash(pair));
  }

  /** bs is the array [null, null, handover]. */
  ghost predicate WrapsHandover(bs: Bytes, handover: Bytes) {
    ReadArray(bs) == Some([[0xf6], [0xf6], handover])
  }

  /**
   * The ISO 18013-7 transcript read back: [null, null, [clientIdHash, responseUriHash, nonce]], each hash over the
   * array of the identifier and the wallet nonce.
   */
  lemma Oid4vpTranscriptReadsBack(s: Session, hash: Hash)
    requires ShortSession(s) && Has32ByteOutput(hash)
    ensures exists handover, c, r, n ::
      && WrapsHandover(Oid4vpTranscript(s, hash), handover) && ReadArray(handover) == Some([c, r, n])
      && HashesTextPair(c, s.clientId, s.walletNonce, hash) && HashesTextPair(r, s.responseUri, s.walletNonce, hash)
      && IsText(n, s.nonce)
  {
    var items := Oid4vpHandover(s, hash);
    Oid4vpHandoverItems(s, hash);
    TranscriptShape(items);
    ArrayReadsBack([NULL, NULL, Array(items)]);
    ArrayReadsBack(items);
    TextPairHashes(s.clientId, s.walletNonce, hash);
    TextPairHashes(s.responseUri, s.walletNonce, hash);
    StringItemsReadBack(s.nonce);
    assert WrapsHandover(Oid4vpTranscript(s, hash), Array(items));
    assert ReadArray(Array(items)) == Some([items[0], items[1], items[2]]);
  }

  // ----- OpenID4VP 1.0 -----

  datatype Jwk = Jwk(kty: Option<Bytes>, crv: Option<Bytes>, x: Option<Bytes>, y: Option<Bytes>)

  datatype Thumbprint = Digest(bytes: Bytes) | UnsupportedKty | MissingMember

  function BeforeX(): Bytes {
    Ascii("\",\"kty\":\"EC\",\"x\":\"")
  }

  function BeforeY(): Bytes {
    Ascii("\",\"y\":\"")
  }

  /** The canonical JSON of RFC 7638; the member values are spliced in unescaped. */
  function CanonicalJwk(crv: Bytes, x: Bytes, y: Bytes): Bytes {
    Ascii("{\"crv\":\"") + (crv + (BeforeX() + (x + (BeforeY() + (y + Ascii("\"}"))))))
  }

  /** A JavaScript truth test: present and not the empty string. */
  predicate Truthy(v: Option<Bytes>) {
    v.Some? && v.value != []
  }

  function JwkThumbprint(jwk: Jwk, hash: Hash): Thumbprint {
    if jwk.kty != Some(Ascii("EC")) then UnsupportedKty
    else if !Truthy(jwk.crv) || !Truthy(jwk.x) || !Truthy(jwk.y) then MissingMember
    else Digest(hash(CanonicalJwk(jwk.crv.value, jwk.x.value, jwk.y.value)))
  }

  datatype FinalSession = FinalSession(clientId: Bytes, nonce: Bytes, responseUri: Bytes, jwk: Option<Jwk>)

  predicate ShortFinalSession(s: FinalSession) {
    Short(s.clientId) && Short(s.nonce) && Short(s.responseUri)
  }

  function ThumbprintOrNull(thumb: Option<Bytes>): Bytes {
    match thumb
    case None => NULL
    case Some(bytes) => ByteString(bytes)
  }

  function HandoverInfoItems(s: FinalSession, thumb: Option<Bytes>): seq<Bytes> {
    [Text(s.clientId), Text(s.nonce), ThumbprintOrNull(thumb), Text(s.responseUri)]
  }

  function HandoverInfo(s: FinalSession, thumb: Option<Bytes>): Bytes {
    Array(HandoverInfoItems(s, thumb))
  }

  /** The thumbprint the builder embeds; None when it throws. */
  function SessionThumbprint(s: FinalSession, hash: Hash): Option<Option<Bytes>> {
    match s.jwk
    case None => Some(Option<Bytes>.None)
    case Some(jwk) =>
      match JwkThumbprint(jwk, hash)
      case Digest(bytes) => Some(Option.Some(bytes))
      case _ => None
  }

  function OpenID4VPHandover(infoHash: Bytes): seq<Bytes> {
    [Text(Ascii("OpenID4VPHandover")), ByteString(infoHash)]
  }

  function OpenID4VPTranscript(s: FinalSession, hash: Hash): Option<Bytes> {
    match SessionThumbprint(s, hash)
    case None => None
    case Some(thumb) => Some(Array([NULL, NULL, Array(OpenID4VPHandover(hash(HandoverInfo(s, thumb))))]))
  }

  lemma OpenID4VPHandoverItems(infoHash: Bytes)
    requires |infoHash| == 32
    ensures AllItems(OpenID4VPHandover(infoHash))
  {
    StringsAreItems(Ascii("OpenID4VPHandover"));
    StringsAreItems(infoHash);
  }

  lemma ThumbprintOrNullItems(thumb: Option<Bytes>)
    requires thumb.Some? ==> Short(thumb.value)
    ensures IsItem(ThumbprintOrNull(thumb))
    ensures ScanItem(ThumbprintOrNull(thumb), false).mt == if thumb.Some? then 2 else 7
  {
    NullIsItem();
    if thumb.Some? { StringsAreItems(thumb.value); }
  }

  lemma HandoverInfoIsInjective(s: FinalSession, t: Option<Bytes>, s': FinalSession, t': Option<Bytes>)
    requires ShortFinalSession(s) && ShortFinalSession(s')
    requires (t.Some? ==> Short(t.value)) && (t'.Some? ==> Short(t'.value))
    requires HandoverInfo(s, t) == HandoverInfo(s', t')
    ensures s.clientId == s'.clientId && s.nonce == s'.nonce && s.responseUri == s'.responseUri && t == t'
  {
    var xs, ys := HandoverInfoItems(s, t), HandoverInfoItems(s', t');
    HandoverInfoIsArray(s, t);
    HandoverInfoIsArray(s', t');
    ArrayIsInjective(xs, ys);
    assert xs[0] == ys[0] && xs[1] == ys[1] && xs[2] == ys[2] && xs[3] == ys[3];
    StringsAreInjective(s.clientId, s'.clientId);
    StringsAreInjective(s.nonce, s'.nonce);
    StringsAreInjective(s.responseUri, s'.responseUri);
    ThumbprintOrNullIsInjective(t, t');
  }

  lemma HandoverInfoIsArray(s: FinalSession, t: Option<Bytes>)
    requires ShortFinalSession(s) && (t.Some? ==> Short(t.value))
    ensures AllItems(HandoverInfoItems(s, t))
  {
    StringsAreItems(s.clientId);
    StringsAreItems(s.nonce);
    StringsAreItems(s.responseUri);
    ThumbprintOrNullItems(t);
    FourAreItems(Text(s.clientId), Text(s.nonce), ThumbprintOrNull(t), Text(s.responseUri));
  }

  lemma FourAreItems(a: Bytes, b: Bytes, c: Bytes, d: Bytes)
    requires IsItem(a) && IsItem(b) && IsItem(c) && IsItem(d)
    ensures AllItems([a, b, c, d])
  {
  }

  lemma ThumbprintOrNullIsInjective(t: Option<Bytes>, t': Option<Bytes>)
    requires (t.Some? ==> Short(t.value)) && (t'.Some? ==> Short(t'.value))
    requires ThumbprintOrNull(t) == ThumbprintOrNull(t')
    ensures t == t'
  {
    ThumbprintOrNullItems(t);
    ThumbprintOrNullItems(t');
    if t.Some? && t'.Some? { StringsAreInjective(t.value, t'.value); }
  }

  /** Equal OpenID4VP 1.0 transcripts agree on every session parameter, or exhibit a hash collision. */
  lemma OpenID4VPTranscriptBinds(s: FinalSession, s': FinalSession, hash: Hash)
    requires ShortFinalSession(s) && ShortFinalSession(s') && Has32ByteOutput(hash)
    requires OpenID4VPTranscript(s, hash).Some? && OpenID4VPTranscript(s, hash) == OpenID4VPTranscript(s', hash)
    ensures
      var t, t' := SessionThumbprint(s, hash).value, SessionThumbprint(s', hash).value;
      (s.clientId == s'.clientId && s.nonce == s'.nonce && s.responseUri == s'.responseUri && t == t')
      || Collide(hash, HandoverInfo(s, t), HandoverInfo(s', t'))
  {
    var t, t' := SessionThumbprint(s, hash).value, SessionThumbprint(s', hash).value;
    var info, info' := HandoverInfo(s, t), HandoverInfo(s', t');
    OpenID4VPHandoverItems(hash(info));
    OpenID4VPHandoverItems(hash(info'));
    var h, h' := OpenID4VPHandover(hash(info)), OpenID4VPHandover(hash(info'));
    SameTranscriptSameHandover(h, h');
    assert h[1] == h'[1];
    StringsAreInjective(hash(info), hash(info'));
    if info == info' {
      HandoverInfoIsInjective(s, t, s', t');
    }
  }

  /** The builder throws exactly for a key that is no EC key or lacks a member. */
  lemma ThrowsOnIncompleteKey(s: FinalSession, hash: Hash)
    ensures OpenID4VPTranscript(s, hash).None? <==>
      s.jwk.Some? && (s.jwk.value.kty != Some([0x45, 0x43]) ||
        Missing(s.jwk.value.crv) || Missing(s.jwk.value.x) || Missing(s.jwk.value.y))
  {
    assert Ascii("EC") == [0x45, 0x43];
  }

  predicate Missing(member: Option<Bytes>) {
    member == None || member == Some([])
  }

  /** utf8 is {"crv":"..","kty":"EC","x":"..","y":".."} with the members of the key. */
  ghost predicate IsCanonicalJson(utf8: Bytes, jwk: Jwk) {
    && jwk.crv.Some? && jwk.x.Some? && jwk.y.Some?
    && exists a, b, c, d :: Characters(a, "{\"crv\":\"") && Characters(b, "\",\"kty\":\"EC\",\"x\":\"") &&
         Characters(c, "\",\"y\":\"") && Characters(d, "\"}") &&
         utf8 == a + jwk.crv.value + b + jwk.x.value + c + jwk.y.value + d
  }

  ghost predicate Characters(bs: Bytes, s: string) {
    |bs| == |s| && forall i :: 0 <= i < |s| ==> bs[i] as int == s[i] as int
  }

  lemma AsciiCharacters(s: string)
    requires forall i :: 0 <= i < |s| ==> (s[i] as int) < 128
    ensures Characters(Ascii(s), s)
  {
  }

  lemma CanonicalJsonOfKey(jwk: Jwk)
    requires jwk.crv.Some? && jwk.x.Some? && jwk.y.Some?
    ensures IsCanonicalJson(CanonicalJwk(jwk.crv.value, jwk.x.value, jwk.y.value), jwk)
  {
    var a, d := Ascii("{\"crv\":\""), Ascii("\"}");
    AsciiCharacters("{\"crv\":\"");
    AsciiCharacters("\",\"kty\":\"EC\",\"x\":\"");
    AsciiCharacters("\",\"y\":\"");
    AsciiCharacters("\"}");
    assert CanonicalJwk(jwk.crv.value, jwk.x.value, jwk.y.value) ==
      a + jwk.crv.value + BeforeX() + jwk.x.value + BeforeY() + jwk.y.value + d;
  }

  /** item is null without a key, and else the byte string of the hash of the key's canonical JSON. */
  ghost predicate IsThumbprintItem(item: Bytes, jwk: Option<Jwk>, hash: Hash) {
    match jwk
    case None => item == [0xf6]
    case Some(key) => exists json :: IsCanonicalJson(json, key) && IsByteString(item, hash(json))
  }

  lemma ThumbprintItem(s: FinalSession, hash: Hash)
    requires Has32ByteOutput(hash) && SessionThumbprint(s, hash).Some?
    ensures IsThumbprintItem(ThumbprintOrNull(SessionThumbprint(s, hash).value), s.jwk, hash)
  {
    match s.jwk
    case None =>
    case Some(key) =>
      CanonicalJsonOfKey(key);
      StringItemsReadBack(hash(CanonicalJwk(key.crv.value, key.x.value, key.y.value)));
  }

  /** info is the array [clientId, nonce, thumbprint or null, responseUri]. */
  ghost predicate IsHandoverInfo(info: Bytes, s: FinalSession, hash: Hash) {
    exists c, n, t, r :: ReadArray(info) == Some([c, n, t, r]) &&
      IsText(c, s.clientId) && IsText(n, s.nonce) && IsThumbprintItem(t, s.jwk, hash) && IsText(r, s.responseUri)
  }

  lemma HandoverInfoReadsBack(s: FinalSession, hash: Hash)
    requires ShortFinalSession(s) && Has32ByteOutput(hash) && SessionThumbprint(s, hash).Some?
    ensures IsHandoverInfo(HandoverInfo(s, SessionThumbprint(s, hash).value), s, hash)
  {
    var t := SessionThumbprint(s, hash).value;
    HandoverInfoIsArray(s, t);
    ArrayReadsBack(HandoverInfoItems(s, t));
    StringItemsReadBack(s.clientId);
    StringItemsReadBack(s.nonce);
    StringItemsReadBack(s.responseUri);
    ThumbprintItem(s, hash);
  }

  /** bs is [null, null, ["OpenID4VPHandover", hash of the info array]]. */
  ghost predicate IsFinalTranscript(bs: Bytes, s: FinalSession, hash: Hash) {
    exists handover, name, digest, info ::
      && WrapsHandover(bs, handover) && ReadArray(handover) == Some([name, digest])
      && Says(name, "OpenID4VPHandover") && IsByteString(digest, hash(info)) && IsHandoverInfo(info, s, hash)
  }

  /** The OpenID4VP 1.0 transcript read back. */
  lemma OpenID4VPTranscriptReadsBack(s: FinalSession, hash: Hash)
    requires ShortFinalSession(s) && Has32ByteOutput(hash) && OpenID4VPTranscript(s, hash).Some?
    ensures IsFinalTranscript(OpenID4VPTranscript(s, hash).value, s, hash)
  {
    var name := Text(Ascii("OpenID4VPHandover"));
    HandoverInfoReadsBack(s, hash);
    TextSays("OpenID4VPHandover");
    StringsAreItems(Ascii("OpenID4VPHandover"));
    NamedHandoverReadsBack(name, HandoverInfo(s, SessionThumbprint(s, hash).value), s, hash);
  }

  lemma NamedHandoverReadsBack(name: Bytes, info: Bytes, s: FinalSession, hash: Hash)
    requires IsItem(name) && Says(name, "OpenID4VPHandover") && IsHandoverInfo(info, s, hash) && Has32ByteOutput(hash)
    ensures IsFinalTranscript(Array([NULL, NULL, Array([name, ByteString(hash(info))])]), s, hash)
  {
    StringItemsReadBack(hash(info));
    StringsAreItems(hash(info));
    HandoverReadsBack(name, ByteString(hash(info)));
  }

  lemma HandoverReadsBack(a: Bytes, b: Bytes)
    requires IsItem(a) && IsItem(b)
    ensures WrapsHandover(Array([NULL, NULL, Array([a, b])]), Array([a, b]))
    ensures ReadArray(Array([a, b])) == Some([a, b])
  {
    TranscriptShape([a, b]);
    ArrayReadsBack([NULL, NULL, Array([a, b])]);
    ArrayReadsBack([a, b]);
  }

  lemma TextSays(s: string)
    requires |s| < MAX_ARGUMENT && forall i :: 0 <= i < |s| ==> (s[i] as int) < 128
    ensures Says(Text(Ascii(s)), s)
  {
    StringItemsReadBack(Ascii(s));
    AsciiCharacters(s);
  }

  /** The two profiles never produce the same bytes. */
  lemma ProfilesNeverCoincide(s: Session, f: FinalSession, hash: Hash)
    requires ShortSession(s) && ShortFinalSession(f) && Has32ByteOutput(hash)
    ensures OpenID4VPTranscript(f, hash) != Some(Oid4vpTranscript(s, hash))
  {
    if OpenID4VPTranscript(f, hash) == Some(Oid4vpTranscript(s, hash)) {
      var info := HandoverInfo(f, SessionThumbprint(f, hash).value);
      OpenID4VPHandoverItems(hash(info));
      Oid4vpHandoverItems(s, hash);
      assert |OpenID4VPHandover(hash(info))| < |Oid4vpHandover(s, hash)|;
      SameTranscriptSameHandover(OpenID4VPHandover(hash(info)), Oid4vpHandover(s, hash));
    }
  }

  /** Both builders return exactly one well-formed data item. */
  lemma TranscriptsAreItems(s: Session, f: FinalSession, hash: Hash)
    requires ShortSession(s) && ShortFinalSession(f) && Has32ByteOutput(hash)
    ensures IsItem(Oid4vpTranscript(s, hash))
    ensures OpenID4VPTranscript(f, hash).Some? ==> IsItem(OpenID4VPTranscript(f, hash).value)
  {
    Oid4vpHandoverItems(s, hash);
    TranscriptShape(Oid4vpHandover(s, hash));
    if OpenID4VPTranscript(f, hash).Some? {
      var info := HandoverInfo(f, SessionThumbprint(f, hash).value);
      OpenID4VPHandoverItems(hash(info));
      TranscriptShape(OpenID4VPHandover(hash(info)));
    }
  }

  // ----- The thumbprint -----

  const QUOTE: byte := 0x22

  lemma {:induction false} SplitAtQuote(a: Bytes, s: Bytes, b: Bytes, t: Bytes)
    requires QUOTE !in a && QUOTE !in b && s != [] && t != [] && s[0] == QUOTE && t[0] == QUOTE
    requires a + s == b + t
    ensures a == b && s == t
  {
    if a == [] || b == [] {
      assert (a + s)[0] == (b + t)[0];
      assert a == [] && b == [];
      assert s == a + s && t == b + t;
    } else {
      assert (a + s)[1..] == a[1..] + s && (b + t)[1..] == b[1..] + t;
      SplitAtQuote(a[1..], s, b[1..], t);
      assert a[0] == (a + s)[0] && b[0] == (b + t)[0];
      assert a == [a[0]] + a[1..] && b == [b[0]] + b[1..];
    }
  }

  lemma StripPrefix(p: Bytes, s: Bytes, t: Bytes)
    requires p + s == p + t
    ensures s == t
  {
    assert s == (p + s)[|p|..] && t == (p + t)[|p|..];
  }

  lemma QuotesInCanonicalJwk(crv: Bytes, x: Bytes, y: Bytes)
    ensures multiset(CanonicalJwk(crv, x, y))[QUOTE] ==
      multiset(crv)[QUOTE] + multiset(x)[QUOTE] + multiset(y)[QUOTE] + multiset(CanonicalJwk([], [], []))[QUOTE]
  {
  }

  lemma QuoteFreeTogether(crv: Bytes, x: Bytes, y: Bytes, crv': Bytes, x': Bytes, y': Bytes)
    requires QUOTE !in crv + x + y && CanonicalJwk(crv, x, y) == CanonicalJwk(crv', x', y')
    ensures QUOTE !in crv && QUOTE !in x && QUOTE !in y && QUOTE !in crv' && QUOTE !in x' && QUOTE !in y'
  {
    QuotesInCanonicalJwk(crv, x, y);
    QuotesInCanonicalJwk(crv', x', y');
  }

  /** A key with quote-free members shares its canonical JSON with no other key, whatever that one's members are. */
  lemma CanonicalJwkIsInjective(crv: Bytes, x: Bytes, y: Bytes, crv': Bytes, x': Bytes, y': Bytes)
    requires QUOTE !in crv + x + y
    requires CanonicalJwk(crv, x, y) == CanonicalJwk(crv', x', y')
    ensures crv == crv' && x == x' && y == y'
  {
    QuoteFreeTogether(crv, x, y, crv', x', y');
    var kty, ym, end := BeforeX(), BeforeY(), Ascii("\"}");
    var s2, s2' := x + (ym + (y + end)), x' + (ym + (y' + end));
    StripPrefix(Ascii("{\"crv\":\""), crv + (kty + s2), crv' + (kty + s2'));
    SplitAtQuote(crv, kty + s2, crv', kty + s2');
    StripPrefix(kty, s2, s2');
    SplitAtQuote(x, ym + (y + end), x', ym + (y' + end));
    StripPrefix(ym, y + end, y' + end);
    SplitAtQuote(y, end, y', end);
  }

  /** With a quote in a member, two different keys share their canonical JSON and so their thumbprint. */
  lemma QuotedMembersCollide(a: Bytes, b: Bytes, c: Bytes, d: Bytes, hash: Hash)
    requires a != [] && c != [] && d != []
    ensures
      var m := BeforeX();
      var j := Jwk(Some(Ascii("EC")), Some(a), Some(b + m + c), Some(d));
      var j' := Jwk(Some(Ascii("EC")), Some(a + m + b), Some(c), Some(d));
      j != j' && JwkThumbprint(j, hash).Digest? && JwkThumbprint(j, hash) == JwkThumbprint(j', hash)
  {
    var m := BeforeX();
    var tail := BeforeY() + (d + Ascii("\"}"));
    assert a + (m + ((b + m + c) + tail)) == (a + m + b) + (m + (c + tail));
    assert |a + m + b| > |a|;
  }

  /** What lies between the opening and the closing of the canonical JSON. */
  function Members(crv: Bytes, x: Bytes, y: Bytes): Bytes {
    crv + (BeforeX() + (x + (BeforeY() + y)))
  }

  /** s can be read as three non-empty members with their separators at i and j. */
  ghost predicate SeparatorsAt(s: Bytes, i: nat, j: nat) {
    && 0 < i && i + |BeforeX()| < j && j + |BeforeY()| < |s|
    && s[i..i + |BeforeX()|] == BeforeX() && s[j..j + |BeforeY()|] == BeforeY()
  }

  /** A different EC key, with all its members, has the same canonical JSON. */
  ghost predicate HasTwin(crv: Bytes, x: Bytes, y: Bytes) {
    exists crv', x', y' :: IsTwin(crv, x, y, crv', x', y')
  }

  ghost predicate IsTwin(crv: Bytes, x: Bytes, y: Bytes, crv': Bytes, x': Bytes, y': Bytes) {
    && crv' != [] && x' != [] && y' != [] && !(crv == crv' && x == x' && y == y')
    && CanonicalJwk(crv', x', y') == CanonicalJwk(crv, x, y)
  }

  lemma CanonicalWrapsMembers(crv: Bytes, x: Bytes, y: Bytes)
    ensures CanonicalJwk(crv, x, y) == Ascii("{\"crv\":\"") + (Members(crv, x, y) + Ascii("\"}"))
  {
    var end := Ascii("\"}");
    assert BeforeY() + (y + end) == (BeforeY() + y) + end;
    assert x + ((BeforeY() + y) + end) == (x + (BeforeY() + y)) + end;
    var rest := x + (BeforeY() + y);
    assert BeforeX() + (rest + end) == (BeforeX() + rest) + end;
    assert crv + ((BeforeX() + rest) + end) == Members(crv, x, y) + end;
  }

  lemma SameCanonicalSameMembers(crv: Bytes, x: Bytes, y: Bytes, crv': Bytes, x': Bytes, y': Bytes)
    ensures CanonicalJwk(crv, x, y) == CanonicalJwk(crv', x', y') <==> Members(crv, x, y) == Members(crv', x', y')
  {
    CanonicalWrapsMembers(crv, x, y);
    CanonicalWrapsMembers(crv', x', y');
    var m, m', end := Members(crv, x, y), Members(crv', x', y'), Ascii("\"}");
    if CanonicalJwk(crv, x, y) == CanonicalJwk(crv', x', y') {
      StripPrefix(Ascii("{\"crv\":\""), m + end, m' + end);
      assert m == (m + end)[..|m + end| - |end|] && m' == (m' + end)[..|m' + end| - |end|];
    }
  }

  lemma {:induction false} SeparatorsOfMembers(crv: Bytes, x: Bytes, y: Bytes)
    requires crv != [] && x != [] && y != []
    ensures SeparatorsAt(Members(crv, x, y), |crv|, |crv| + |BeforeX()| + |x|)
  {
    var s, i, j := Members(crv, x, y), |crv|, |crv| + |BeforeX()| + |x|;
    assert s[i..] == BeforeX() + (x + (BeforeY() + y));
    assert s[i..i + |BeforeX()|] == BeforeX();
    assert s[j..] == BeforeY() + y;
    assert s[j..j + |BeforeY()|] == BeforeY();
  }

  lemma {:induction false} MembersFromSeparators(s: Bytes, i: nat, j: nat)
    requires SeparatorsAt(s, i, j)
    ensures s == Members(s[..i], s[i + |BeforeX()|..j], s[j + |BeforeY()|..])
  {
    assert s[j..] == BeforeY() + s[j + |BeforeY()|..];
    assert s[i + |BeforeX()|..] == s[i + |BeforeX()|..j] + s[j..];
    assert s[i..] == BeforeX() + s[i + |BeforeX()|..];
    assert s == s[..i] + s[i..];
  }

  /** A key shares its canonical JSON with another exactly when the separators can be found in a second place. */
  lemma {:induction false} TwinExactlyWhenSeparatorsRecur(crv: Bytes, x: Bytes, y: Bytes)
    requires crv != [] && x != [] && y != []
    ensures HasTwin(crv, x, y) <==>
      exists i: nat, j: nat :: SeparatorsAt(Members(crv, x, y), i, j) && !(i == |crv| && j == |crv| + |BeforeX()| + |x|)
  {
    var s := Members(crv, x, y);
    forall crv', x', y' | IsTwin(crv, x, y, crv', x', y')
      ensures exists i: nat, j: nat :: SeparatorsAt(s, i, j) && !(i == |crv| && j == |crv| + |BeforeX()| + |x|)
    {
      SameCanonicalSameMembers(crv', x', y', crv, x, y);
      SeparatorsOfMembers(crv', x', y');
      if |crv| == |crv'| && |x| == |x'| { SameCuts(crv, x, y, crv', x', y'); }
    }
    forall i: nat, j: nat | SeparatorsAt(s, i, j) && !(i == |crv| && j == |crv| + |BeforeX()| + |x|)
      ensures HasTwin(crv, x, y)
    {
      var crv', x', y' := s[..i], s[i + |BeforeX()|..j], s[j + |BeforeY()|..];
      MembersFromSeparators(s, i, j);
      SameCanonicalSameMembers(crv', x', y', crv, x, y);
      assert IsTwin(crv, x, y, crv', x', y');
    }
  }

  lemma {:induction false} SameCuts(crv: Bytes, x: Bytes, y: Bytes, crv': Bytes, x': Bytes, y': Bytes)
    requires Members(crv, x, y) == Members(crv', x', y') && |crv| == |crv'| && |x| == |x'|
    ensures crv == crv' && x == x' && y == y'
  {
    CutFront(crv, BeforeX() + (x + (BeforeY() + y)), crv', BeforeX() + (x' + (BeforeY() + y')));
    StripPrefix(BeforeX(), x + (BeforeY() + y), x' + (BeforeY() + y'));
    CutFront(x, BeforeY() + y, x', BeforeY() + y');
    StripPrefix(BeforeY(), y, y');
  }
}
