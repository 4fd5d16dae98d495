/**
 * The tag-24 wrapping of IssuerSignedItem bytes: the exact bytes an issuer commits to
 * (section 9.1.2.4 of ISO 18013-5).
 */
module IssuerSignedItem {
  import opened Options
  import opened ByteStrings
  import opened Cbor

  /** JavaScript's conversion to an unsigned 32-bit integer. */
  function ToUint32(n: nat): nat {
    n % 0x1_0000_0000
  }

  /** (n >>> bits) & 0xff */
  function ByteAt(n: nat, divisor: nat): byte
    requires divisor > 0
  {
    ToUint32(n) / divisor % 256
  }

  /** The hand-written header of a definite-length byte string. */
  function ByteStringHeader(length: nat): Bytes {
    if length < 24 then [0x40 + length]
    else if length < 0x100 then [0x58, length]
    else if length < 0x10000 then [0x59, ByteAt(length, 0x100), ByteAt(length, 1)]
    else if length < 0x1_0000_0000 then
      [0x5a, ByteAt(length, 0x100_0000), ByteAt(length, 0x10000), ByteAt(length, 0x100), ByteAt(length, 1)]
    else
      var hi, lo := length / 0x1_0000_0000, ToUint32(length);
      [0x5b, ByteAt(hi, 0x100_0000), ByteAt(hi, 0x10000), ByteAt(hi, 0x100), ByteAt(hi, 1),
       ByteAt(lo, 0x100_0000), ByteAt(lo, 0x10000), ByteAt(lo, 0x100), ByteAt(lo, 1)]
  }

  const MAX_SAFE_LENGTH: nat := 0x20_0000_0000_0000

  lemma BigEndian4(n: nat)
    ensures BigEndian(4, n) == [n / 0x100_0000 % 256, n / 0x10000 % 256, n / 0x100 % 256, n % 256]
  {
    assert BigEndian(1, n / 256 / 256 / 256) == [n / 256 / 256 / 256 % 256];
    assert BigEndian(2, n / 256 / 256) == [n / 256 / 256 / 256 % 256, n / 256 / 256 % 256];
    assert BigEndian(3, n / 256) == [n / 256 / 256 / 256 % 256, n / 256 / 256 % 256, n / 256 % 256];
  }

  lemma BigEndian8(n: nat)
    ensures BigEndian(8, n) == BigEndian(4, n / 0x1_0000_0000) + BigEndian(4, n)
  {
    var n1, n2, n3, n4 := n / 256, n / 0x10000, n / 0x100_0000, n / 0x1_0000_0000;
    assert n2 == n1 / 256 && n3 == n2 / 256 && n4 == n3 / 256;
    var top := BigEndian(4, n4);
    assert BigEndian(5, n3) == top + [n3 % 256];
    assert BigEndian(6, n2) == top + [n3 % 256, n2 % 256];
    assert BigEndian(7, n1) == top + [n3 % 256, n2 % 256, n1 % 256];
    assert BigEndian(8, n) == top + [n3 % 256, n2 % 256, n1 % 256, n % 256];
    BigEndian4(n);
  }

  lemma LowByte3(n: nat)
    ensures ToUint32(n) / 0x100_0000 % 256 == n / 0x100_0000 % 256
  {
    var hi, lo := n / 0x1_0000_0000, n % 0x1_0000_0000;
    assert n / 0x100_0000 == hi * 256 + lo / 0x100_0000;
  }

  lemma LowByte2(n: nat)
    ensures ToUint32(n) / 0x10000 % 256 == n / 0x10000 % 256
  {
    var hi, lo := n / 0x1_0000_0000, n % 0x1_0000_0000;
    assert n / 0x10000 == hi * 0x10000 + lo / 0x10000;
  }

  lemma LowByte1(n: nat)
    ensures ToUint32(n) / 0x100 % 256 == n / 0x100 % 256
  {
    var hi, lo := n / 0x1_0000_0000, n % 0x1_0000_0000;
    assert n / 0x100 == hi * 0x100_0000 + lo / 0x100;
  }

  lemma LowByte0(n: nat)
    ensures ToUint32(n) / 1 % 256 == n % 256
  {
  }

  /** Shifting and masking four times spells the low 32 bits, most significant byte first. */
  lemma ShiftedBytes(n: nat)
    ensures [ByteAt(n, 0x100_0000), ByteAt(n, 0x10000), ByteAt(n, 0x100), ByteAt(n, 1)] == BigEndian(4, n)
  {
    BigEndian4(n);
    LowByte3(n);
    LowByte2(n);
    LowByte1(n);
    LowByte0(n);
  }

  /** The header written with shifts is the shortest head of the encoding (section 4.2.1 of RFC 8949). */
  lemma HeaderIsShortestHead(length: nat)
    requires length < MAX_SAFE_LENGTH
    ensures ByteStringHeader(length) == EncodeHead(2, length)
  {
    if length < 24 {
    } else if length < 0x100 {
      assert BigEndian(1, length) == [length];
    } else if length < 0x10000 {
      TwoByteHeader(length);
    } else if length < 0x1_0000_0000 {
      ShiftedBytes(length);
    } else {
      BigHeader(length);
    }
  }

  lemma TwoByteHeader(length: nat)
    requires 0x100 <= length < 0x10000
    ensures ByteStringHeader(length) == EncodeHead(2, length)
  {
    BigEndian2(length);
    LowByte1(length);
    LowByte0(length);
  }

  lemma BigEndian2(n: nat)
    ensures BigEndian(2, n) == [n / 256 % 256, n % 256]
  {
    assert BigEndian(1, n / 256) == [n / 256 % 256];
  }

  lemma BigHeader(length: nat)
    requires 0x1_0000_0000 <= length < MAX_SAFE_LENGTH
    ensures ByteStringHeader(length) == EncodeHead(2, length)
  {
    var hi, lo := length / 0x1_0000_0000, ToUint32(length);
    BigEndian8(length);
    ShiftedBytes(hi);
    ShiftedLowHalf(length);
  }

  lemma LowHalfByte(n: nat, divisor: nat)
    requires divisor > 0
    ensures ByteAt(ToUint32(n), divisor) == ByteAt(n, divisor)
  {
    assert ToUint32(ToUint32(n)) == ToUint32(n);
  }

  lemma ShiftedLowHalf(n: nat)
    ensures var lo := ToUint32(n);
      [ByteAt(lo, 0x100_0000), ByteAt(lo, 0x10000), ByteAt(lo, 0x100), ByteAt(lo, 1)] == BigEndian(4, n)
  {
    ShiftedBytes(n);
    LowHalfByte(n, 0x100_0000);
    LowHalfByte(n, 0x10000);
    LowHalfByte(n, 0x100);
    LowHalfByte(n, 1);
  }

  function Wrapped(inner: Bytes): Bytes {
    [0xd8, 0x18] + ByteStringHeader(|inner|) + inner
  }

  method WrapIssuerSignedItemBytes(inner: Bytes) returns (out: array<byte>)
    ensures fresh(out) && out[..] == Wrapped(inner)
  {
    var header := ByteStringHeader(|inner|);
    out := new byte[2 + |header| + |inner|](_ => 0);
    out[0] := 0xd8;
    out[1] := 0x18;
    forall k | 0 <= k < |header| {
      out[2 + k] := header[k];
    }
    forall k | 0 <= k < |inner| {
      out[2 + |header| + k] := inner[k];
    }
  }

  /** Reading back a wrapped item, whatever follows it, gives exactly the inner bytes. */
  lemma WrapReadsBack(inner: Bytes, suffix: Bytes)
    requires |inner| < MAX_SAFE_LENGTH
    ensures ReadTag24(Wrapped(inner) + suffix) == Some((inner, suffix))
    ensures Wrapped(inner) == Tag24(inner)
  {
    HeaderIsShortestHead(|inner|);
    assert Wrapped(inner) == [0xd8, 0x18] + (EncodeHead(2, |inner|) + inner);
    Tag24ReadsBack(inner, suffix);
  }

  // ----- The decode shapes of a nameSpaces element -----

  datatype Element =
    | Tagged(tag: nat, content: Option<Bytes>)
    | Plain(bytes: Bytes)
    | Embedded(inner: Bytes)
    | Other

  predicate HasTag24Prefix(bs: Bytes) {
    |bs| >= 2 && bs[0] == 0xd8 && bs[1] == 0x18
  }

  /** The bytes that are hashed for an element; None when the parser throws. */
  function ExtractRawItemBytes(item: Element): Option<Bytes> {
    match item
    case Tagged(tag, bytes) =>
      if tag == 24 && bytes.Some? then Some(Wrapped(bytes.value)) else None
    case Plain(bs) => if HasTag24Prefix(bs) then Some(bs) else Some(Wrapped(bs))
    case Embedded(inner) => Some(Wrapped(inner))
    case Other => None
  }

  /** Extracted bytes are left alone by a second extraction. */
  lemma ExtractIsIdempotent(item: Element)
    requires ExtractRawItemBytes(item).Some?
    ensures HasTag24Prefix(ExtractRawItemBytes(item).value)
    ensures ExtractRawItemBytes(Plain(ExtractRawItemBytes(item).value)) == ExtractRawItemBytes(item)
  {
  }

  /**
   * The shapes a decoder may deliver hash the same bytes exactly when the inner item does not
   * itself start with the tag-24 prefix.
   */
  lemma ShapesAgreeExactly(inner: Bytes)
    requires |inner| < MAX_SAFE_LENGTH
    ensures ExtractRawItemBytes(Tagged(24, Some(inner))) == ExtractRawItemBytes(Embedded(inner))
    ensures ExtractRawItemBytes(Plain(inner)) == ExtractRawItemBytes(Tagged(24, Some(inner))) <==>
      !HasTag24Prefix(inner)
  {
    if HasTag24Prefix(inner) {
      assert |Wrapped(inner)| > |inner|;
    }
  }

  /** The shortest well-formed inner item on which the shapes disagree: an empty tag-24 item inside an item. */
  lemma PrefixedInnerItemDiffers()
    ensures var inner: Bytes := [0xd8, 0x18, 0x40];
      && ExtractRawItemBytes(Plain(inner)) == Some(inner)
      && ExtractRawItemBytes(Embedded(inner)) == Some([0xd8, 0x18, 0x43, 0xd8, 0x18, 0x40])
  {
    assert Wrapped([0xd8, 0x18, 0x40]) == [0xd8, 0x18, 0x43, 0xd8, 0x18, 0x40];
  }

  /** Different inner items never share their extracted bytes. */
  lemma WrappedIsInjective(a: Bytes, b: Bytes)
    requires |a| < MAX_SAFE_LENGTH && |b| < MAX_SAFE_LENGTH && Wrapped(a) == Wrapped(b)
    ensures a == b
  {
    WrapReadsBack(a, []);
    WrapReadsBack(b, []);
  }
}
