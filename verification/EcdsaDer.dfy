/**
 * Conversion of ECDSA signatures from DER (a SEQUENCE of two INTEGERs) to the fixed-width
 * concatenation that signature verification expects.
 */
module EcdsaDer {
  import opened ByteStrings

  datatype Converted = Ok(bytes: Bytes) | NoSequence | NoIntegerR | NoIntegerS

  /** The byte at pos, or -1 past the end. */
  function At(der: Bytes, pos: nat): int {
    if pos < |der| then der[pos] else -1
  }

  /** slice(pos, pos + len), clamped to the array. */
  function Slice(der: Bytes, pos: nat, len: nat): Bytes {
    if pos >= |der| then [] else if pos + len <= |der| then der[pos..pos + len] else der[pos..]
  }

  function Zeros(n: nat): (z: Bytes)
    ensures |z| == n && forall i :: 0 <= i < n ==> z[i] == 0
  {
    if n == 0 then [] else Zeros(n - 1) + [0]
  }

  /** The last n bytes, or the bytes after enough zeros to make n. */
  function FixedWidth(bs: Bytes, n: nat): (r: Bytes)
    ensures |r| == n
  {
    if |bs| > n then bs[|bs| - n..] else Zeros(n - |bs|) + bs
  }

  function Convert(der: Bytes, n: nat): Converted {
    if At(der, 0) != 0x30 then NoSequence
    else if At(der, 2) != 0x02 then NoIntegerR
    else if At(der, 3) == -1 then NoIntegerS
    else ConvertFrom(der, At(der, 3), n)
  }

  /** The rest of the conversion, with rLen taken for the length of r. */
  function ConvertFrom(der: Bytes, rLen: nat, n: nat): Converted {
    if At(der, 4 + rLen) != 0x02 then NoIntegerS
    else Ok(FixedWidth(Slice(der, 4, rLen), n) + FixedWidth(SliceOfS(der, rLen), n))
  }

  function SliceOfS(der: Bytes, rLen: nat): (bs: Bytes)
    ensures |bs| <= 255
  {
    var sLen := At(der, 5 + rLen);
    if sLen == -1 then [] else Slice(der, 6 + rLen, sLen)
  }

  method EcdsaDerToIeee(der: Bytes, coordBytes: nat) returns (result: Converted)
    ensures result == Convert(der, coordBytes)
  {
    var pos := 0;
    if At(der, pos) != 0x30 {
      return NoSequence;
    }
    pos := pos + 1;
    pos := pos + 1; // the sequence length is not read
    if At(der, pos) != 0x02 {
      return NoIntegerR;
    }
    pos := pos + 1;
    var rLen := At(der, pos);
    pos := pos + 1;
    if rLen == -1 {
      return NoIntegerS; // an undefined length makes the position not a number
    }
    var r := Slice(der, pos, rLen);
    pos := pos + rLen;
    if At(der, pos) != 0x02 {
      return NoIntegerS;
    }
    pos := pos + 1;
    var sLen := At(der, pos);
    pos := pos + 1;
    var s := if sLen == -1 then [] else Slice(der, pos, sLen);
    var out := PlaceBoth(r, s, coordBytes);
    result := Ok(out[..]);
  }

  /** What is refused: no sequence, no first integer in the third byte, or no second one behind the first. */
  lemma RefusedForCause(der: Bytes, n: nat)
    ensures var r := Convert(der, n);
      && (r == NoSequence <==> |der| == 0 || der[0] != 0x30)
      && (r == NoIntegerR <==> |der| > 0 && der[0] == 0x30 && (|der| < 3 || der[2] != 0x02))
      && (r == NoIntegerS <==>
            |der| > 2 && der[0] == 0x30 && der[2] == 0x02 &&
            (|der| < 4 || |der| <= 4 + der[3] as int || der[4 + der[3] as int] != 0x02))
  {
  }

  /** Cuts both numbers to the width and places them at the right ends of the two halves. */
  method PlaceBoth(r: Bytes, s: Bytes, coordBytes: nat) returns (out: array<byte>)
    ensures out[..] == FixedWidth(r, coordBytes) + FixedWidth(s, coordBytes)
  {
    out := new byte[coordBytes * 2](_ => 0);
    Place(out, 0, coordBytes, r);
    Place(out, coordBytes, coordBytes, s);
    assert out[..] == out[..coordBytes] + out[coordBytes..];
  }

  method Place(out: array<byte>, start: nat, width: nat, wide: Bytes)
    requires start + width <= out.Length && forall k :: start <= k < start + width ==> out[k] == 0
    modifies out
    ensures out[start..start + width] == FixedWidth(wide, width)
    ensures forall k :: 0 <= k < out.Length && !(start <= k < start + width) ==> out[k] == old(out[k])
  {
    var bs := if |wide| > width then wide[|wide| - width..] else wide;
    var shift := start + width - |bs|;
    forall k | 0 <= k < |bs| { out[shift + k] := bs[k]; }
    assert out[shift..start + width] == bs;
    assert out[start..shift] == Zeros(width - |bs|);
    assert out[start..start + width] == out[start..shift] + out[shift..start + width];
    assert Zeros(0) + bs == bs;
  }

  // ----- DER (section 8.3 of X.690) -----

  /** The shortest big-endian form of v, at least one byte. */
  function MinBytes(v: nat): (bs: Bytes)
    ensures bs != []
  {
    if v < 256 then [v] else MinBytes(v / 256) + [v % 256]
  }

  /** The content of an INTEGER: shortest, with a zero byte first when the top bit is set. */
  function IntegerContent(v: nat): Bytes {
    if MinBytes(v)[0] >= 128 then [0] + MinBytes(v) else MinBytes(v)
  }

  /** Longer than any JavaScript byte array. */
  const MAX_LENGTH: nat := 0x20_0000_0000_0000

  /** The length octets (section 8.1.3 of X.690): one byte up to 127, else their number and the length. */
  function DerLength(n: nat): (bs: Bytes)
    requires n < MAX_LENGTH
    ensures 0 < |bs| <= 8
  {
    if n < 128 then [n]
    else
      assert Pow256(7) == 0x100_0000_0000_0000;
      MinBytesLength(n, 7);
      [128 + |MinBytes(n)|] + MinBytes(n)
  }

  /** Signatures that fit into a byte array. */
  predicate Encodable(r: nat, s: nat) {
    |IntegerContent(r)| + |IntegerContent(s)| < MAX_LENGTH - 32
  }

  function DerInteger(v: nat): (bs: Bytes)
    requires |IntegerContent(v)| < MAX_LENGTH
    ensures |IntegerContent(v)| + 2 <= |bs| <= |IntegerContent(v)| + 9
  {
    [0x02] + DerLength(|IntegerContent(v)|) + IntegerContent(v)
  }

  function SignatureContent(r: nat, s: nat): (bs: Bytes)
    requires Encodable(r, s)
    ensures |bs| < MAX_LENGTH
  {
    DerInteger(r) + DerInteger(s)
  }

  function DerSignature(r: nat, s: nat): Bytes
    requires Encodable(r, s)
  {
    [0x30] + DerLength(|SignatureContent(r, s)|) + SignatureContent(r, s)
  }

  lemma {:induction false} UintOfMinBytes(v: nat)
    ensures Uint(MinBytes(v)) == v
  {
    if v < 256 {
      assert [v][..0] == [];
    } else {
      UintOfMinBytes(v / 256);
      UintSnoc(MinBytes(v / 256), v % 256);
    }
  }

  lemma {:induction false} LeadingZero(bs: Bytes)
    ensures Uint([0] + bs) == Uint(bs)
  {
    if bs == [] {
      assert [0] + bs == [] + [0];
      UintSnoc([], 0);
    } else {
      var init, b := bs[..|bs| - 1], bs[|bs| - 1];
      LeadingZero(init);
      assert [0] + bs == ([0] + init) + [b];
      UintSnoc([0] + init, b);
    }
  }

  lemma UintOfIntegerContent(v: nat)
    ensures Uint(IntegerContent(v)) == v
  {
    UintOfMinBytes(v);
    LeadingZero(MinBytes(v));
  }

  /** Fixing the width of a byte string spells its number in that width, high bytes dropped. */
  lemma {:induction false} FixedWidthIsBigEndian(bs: Bytes, n: nat)
    ensures FixedWidth(bs, n) == BigEndian(n, Uint(bs))
  {
    if n == 0 {
    } else if bs == [] {
      ZerosAreBigEndian(n);
    } else {
      var init, b := bs[..|bs| - 1], bs[|bs| - 1];
      FixedWidthIsBigEndian(init, n - 1);
      assert FixedWidth(bs, n) == FixedWidth(init, n - 1) + [b];
      assert Uint(bs) / 256 == Uint(init) && Uint(bs) % 256 == b;
    }
  }

  lemma {:induction false} ZerosAreBigEndian(n: nat)
    ensures Zeros(n) == BigEndian(n, 0)
  {
    if n != 0 { ZerosAreBigEndian(n - 1); }
  }

  lemma ReadPieces(head: Bytes, a: Bytes, mid: Bytes, b: Bytes)
    requires |head| == 4 && |mid| == 2
    ensures var der := head + a + mid + b;
      && At(der, 0) == head[0] && At(der, 2) == head[2] && At(der, 3) == head[3]
      && At(der, 4 + |a|) == mid[0] && At(der, 5 + |a|) == mid[1]
      && Slice(der, 4, |a|) == a && Slice(der, 6 + |a|, |b|) == b
  {
    var der := head + a + mid + b;
    assert der[4..4 + |a|] == a;
    assert der[6 + |a|..] == b;
    assert der[4 + |a|] == mid[0] && der[5 + |a|] == mid[1];
  }

  lemma ConvertPieces(len: byte, a: Bytes, b: Bytes, n: nat)
    requires |a| < 128 && |b| < 128
    ensures Convert([0x30, len, 0x02, |a|] + a + [0x02, |b|] + b, n) == Ok(FixedWidth(a, n) + FixedWidth(b, n))
  {
    var head, mid := [0x30, len, 0x02, |a|], [0x02, |b|];
    ReadPieces(head, a, mid, b);
    ConvertRead(head + a + mid + b, a, b, n);
  }

  lemma ConvertRead(der: Bytes, a: Bytes, b: Bytes, n: nat)
    requires At(der, 0) == 0x30 && At(der, 2) == 0x02 && At(der, 3) == |a|
    requires At(der, 4 + |a|) == 0x02 && At(der, 5 + |a|) == |b|
    requires Slice(der, 4, |a|) == a && Slice(der, 6 + |a|, |b|) == b
    ensures Convert(der, n) == Ok(FixedWidth(a, n) + FixedWidth(b, n))
  {
  }

  lemma {:induction false} MinBytesLength(v: nat, n: nat)
    requires n > 0 && v < Pow256(n)
    ensures |MinBytes(v)| <= n
  {
    if v >= 256 {
      assert n > 1;
      MinBytesLength(v / 256, n - 1);
    }
  }

  /** Shorter than 128 bytes, the content is read as it was written. */
  lemma ShortContentConverts(r: nat, s: nat, n: nat)
    requires Encodable(r, s) && |SignatureContent(r, s)| < 128
    ensures Convert(DerSignature(r, s), n) == Ok(BigEndian(n, r) + BigEndian(n, s))
  {
    var content, a, b := SignatureContent(r, s), IntegerContent(r), IntegerContent(s);
    assert DerSignature(r, s) == [0x30, |content|, 0x02, |a|] + a + [0x02, |b|] + b;
    ConvertPieces(|content|, a, b, n);
    FixedWidthIsBigEndian(a, n);
    FixedWidthIsBigEndian(b, n);
    UintOfIntegerContent(r);
    UintOfIntegerContent(s);
  }

  /**
   * From 128 bytes on the length takes more than one byte, and its first byte is taken for the tag of r: the
   * signature is rejected there unless that byte is 2. Then the next length byte is taken for the length of r,
   * and the signature is rejected unless a byte 2 stands where s would begin.
   */
  lemma LongContentOutcome(r: nat, s: nat, n: nat)
    requires Encodable(r, s) && |SignatureContent(r, s)| >= 128
    ensures var size := MinBytes(|SignatureContent(r, s)|);
      if size[0] != 2 then Convert(DerSignature(r, s), n) == NoIntegerR
      else |size| > 1 && Convert(DerSignature(r, s), n) == ConvertFrom(DerSignature(r, s), size[1], n)
  {
    var content, der := SignatureContent(r, s), DerSignature(r, s);
    var size := MinBytes(|content|);
    assert der == [0x30, 128 + |size|] + (size + content);
    if |content| >= 256 { TwoByteLength(|content|); }
    ConvertFromThirdByte([0x30, 128 + |size|], size, content, n);
  }

  lemma ConvertFromThirdByte(head: Bytes, size: Bytes, content: Bytes, n: nat)
    requires |head| == 2 && head[0] == 0x30 && size != [] && (size[0] == 2 ==> |size| > 1)
    ensures var der := head + (size + content);
      if size[0] != 2 then Convert(der, n) == NoIntegerR else Convert(der, n) == ConvertFrom(der, size[1], n)
  {
    var der := head + (size + content);
    LeadingBytes(head, size, content);
  }

  lemma LeadingBytes(head: Bytes, size: Bytes, content: Bytes)
    requires |head| == 2 && size != []
    ensures var der := head + (size + content);
      At(der, 0) == head[0] && At(der, 2) == size[0] && (|size| > 1 ==> At(der, 3) == size[1])
  {
  }

  /** A number read from at most m bytes has at most m bytes. */
  lemma ReadFromSlice(bs: Bytes, v: nat, n: nat, m: nat)
    requires |bs| <= m && 0 < m && v < Pow256(n) && FixedWidth(bs, n) == BigEndian(n, v)
    ensures |IntegerContent(v)| <= m + 1
  {
    FixedWidthIsBigEndian(bs, n);
    UintBound(bs);
    Pow256Grows(|bs|, m);
    LowPart(n, Uint(bs));
    UintOfBigEndian(n, v);
    MinBytesLength(v, m);
  }

  lemma {:induction false} Pow256Grows(a: nat, b: nat)
    requires a <= b
    ensures Pow256(a) <= Pow256(b)
    decreases b
  {
    if a < b { Pow256Grows(a, b - 1); }
  }

  lemma {:induction false} LowPart(n: nat, v: nat)
    ensures Uint(BigEndian(n, v)) <= v
  {
    if n != 0 {
      LowPart(n - 1, v / 256);
      UintSnoc(BigEndian(n - 1, v / 256), v % 256);
    }
  }

  /** The second byte of a length that starts with 2 is what the length exceeds 512 by, when there is no third. */
  lemma TwoByteLength(c: nat)
    requires 256 <= c
    ensures |MinBytes(c)| > 1
    ensures |MinBytes(c)| == 2 && MinBytes(c)[0] == 2 ==> MinBytes(c)[1] as int == c - 512
    ensures |MinBytes(c)| > 2 ==> c >= 0x1_0000
  {
    UintOfMinBytes(c);
    if c < 0x1_0000 {
      assert MinBytes(c) == [c / 256, c % 256];
    }
  }

  /** A long content is never converted to the numbers it holds. */
  lemma LongContentNeverConverts(r: nat, s: nat, n: nat)
    requires Encodable(r, s) && |SignatureContent(r, s)| >= 128 && r < Pow256(n) && s < Pow256(n)
    ensures Convert(DerSignature(r, s), n) != Ok(BigEndian(n, r) + BigEndian(n, s))
  {
    var der, c := DerSignature(r, s), |SignatureContent(r, s)|;
    LongContentOutcome(r, s, n);
    if Convert(der, n) == Ok(BigEndian(n, r) + BigEndian(n, s)) {
      var size := MinBytes(c);
      TwoByteLength(c);
      MisreadIsShort(der, r, s, n, size[1]);
    }
  }

  /** The two misread numbers are too short to be those of a long content. */
  lemma MisreadIsShort(der: Bytes, r: nat, s: nat, n: nat, rLen: nat)
    requires rLen < 256 && r < Pow256(n) && s < Pow256(n)
    requires ConvertFrom(der, rLen, n) == Ok(BigEndian(n, r) + BigEndian(n, s))
    ensures |IntegerContent(r)| <= rLen + 2 && |IntegerContent(s)| <= 256
  {
    var a, b := Slice(der, 4, rLen), SliceOfS(der, rLen);
    CutFront(FixedWidth(a, n), FixedWidth(b, n), BigEndian(n, r), BigEndian(n, s));
    ReadFromSlice(a, r, n, rLen + 1);
    ReadFromSlice(b, s, n, 255);
  }

  /**
   * For every width and all numbers that fit it, the DER form of (r, s) converts to r and s in n bytes each
   * exactly when the content of its sequence is shorter than 128 bytes.
   */
  lemma ConvertInvertsDer(r: nat, s: nat, n: nat)
    requires Encodable(r, s) && r < Pow256(n) && s < Pow256(n)
    ensures Convert(DerSignature(r, s), n) == Ok(BigEndian(n, r) + BigEndian(n, s)) <==> |SignatureContent(r, s)| < 128
  {
    if |SignatureContent(r, s)| < 128 { ShortContentConverts(r, s, n); } else { LongContentNeverConverts(r, s, n); }
  }

  /** Curves of up to 60-byte coordinates always fit; both numbers come back whole. */
  lemma ShortCoordinatesConvert(r: nat, s: nat, n: nat)
    requires 0 < n <= 60 && r < Pow256(n) && s < Pow256(n)
    ensures Encodable(r, s) && Convert(DerSignature(r, s), n) == Ok(BigEndian(n, r) + BigEndian(n, s))
    ensures Uint(BigEndian(n, r)) == r && Uint(BigEndian(n, s)) == s
  {
    MinBytesLength(r, n);
    MinBytesLength(s, n);
    ConvertInvertsDer(r, s, n);
    UintOfBigEndian(n, r);
    UintOfBigEndian(n, s);
  }

  // ----- Signatures that are too long -----

  lemma {:induction false} MinBytesReadsBack(bs: Bytes)
    requires bs != [] && bs[0] != 0
    ensures Uint(bs) > 0 && MinBytes(Uint(bs)) == bs
  {
    if |bs| == 1 {
      assert bs[..0] == [];
    } else {
      MinBytesReadsBack(bs[..|bs| - 1]);
      assert bs == bs[..|bs| - 1] + [bs[|bs| - 1]];
    }
  }

  function Twos(n: nat): (bs: Bytes)
    ensures |bs| == n && forall i :: 0 <= i < n ==> bs[i] == 2
  {
    if n == 0 then [] else Twos(n - 1) + [2]
  }

  /** The number of k bytes 2: what it is encoded as. */
  lemma TwosEncoded(k: nat)
    requires 0 < k < 1000
    ensures var v := Uint(Twos(k)); v < Pow256(k) && IntegerContent(v) == Twos(k) && Encodable(v, v)
  {
    MinBytesReadsBack(Twos(k));
    UintBound(Twos(k));
  }

  /** Two numbers of 62 to 125 bytes 2 have at least 128 bytes of content, and the signature is rejected. */
  lemma LongContentIsRejected(k: nat, n: nat)
    requires 62 <= k <= 125
    ensures var v := Uint(Twos(k));
      v < Pow256(k) && Encodable(v, v) && |SignatureContent(v, v)| == 2 * k + 4 &&
      Convert(DerSignature(v, v), n) == NoIntegerR
  {
    TwosEncoded(k);
    LongContentOutcome(Uint(Twos(k)), Uint(Twos(k)), n);
  }

  lemma TwosContent(k: nat, header: Bytes)
    requires 256 <= k < 512 && header == [0x02] + DerLength(k)
    ensures var v := Uint(Twos(k));
      |header| == 4 && Encodable(v, v) && SignatureContent(v, v) == header + Twos(k) + (header + Twos(k))
  {
    TwosEncoded(k);
    ThreeByteLength(k);
    ContentTwice(Uint(Twos(k)), Twos(k), header);
  }

  lemma ThreeByteLength(k: nat)
    requires 256 <= k < 0x10000
    ensures |DerLength(k)| == 3
  {
    assert |MinBytes(k / 256)| == 1;
  }

  lemma ContentTwice(v: nat, x: Bytes, header: Bytes)
    requires IntegerContent(v) == x && |x| < 1000 && header == [0x02] + DerLength(|x|)
    ensures SignatureContent(v, v) == header + x + (header + x)
  {
  }

  lemma TwoWhereSWouldBegin(k: nat)
    requires 256 <= k <= 379
    ensures var v := Uint(Twos(k));
      Encodable(v, v) && |SignatureContent(v, v)| == 2 * k + 8 && At(DerSignature(v, v), 2 * k - 500) == 2
  {
    var c: nat, header: Bytes := 2 * k + 8, [0x02] + DerLength(k);
    TwosContent(k, header);
    TwoByteForm(c);
    ByteBehindHeaders([0x30] + DerLength(c), header, Twos(k), header + Twos(k), c - 512);
  }

  lemma TwoByteForm(c: nat)
    requires 512 <= c < 768
    ensures MinBytes(c) == [2, c - 512] && |DerLength(c)| == 3
  {
    assert MinBytes(c / 256) == [2];
  }

  /** Two numbers of 256 to 379 bytes 2 give a signature that converts to numbers it does not hold. */
  lemma LongContentIsMisread(k: nat)
    requires 256 <= k <= 379
    ensures var v := Uint(Twos(k));
      && v < Pow256(k) && Encodable(v, v)
      && Convert(DerSignature(v, v), k).Ok? && Convert(DerSignature(v, v), k) != Ok(BigEndian(k, v) + BigEndian(k, v))
  {
    TwosEncoded(k);
    TwoWhereSWouldBegin(k);
    TwoByteForm(2 * k + 8);
    var v := Uint(Twos(k));
    LongContentOutcome(v, v, k);
    LongContentNeverConverts(v, v, k);
  }

  lemma ByteBehindHeaders(a: Bytes, b: Bytes, x: Bytes, rest: Bytes, i: nat)
    requires |a| == 4 && |b| == 4 && 4 <= i < 4 + |x|
    ensures At(a + (b + x + rest), 4 + i) == x[i - 4]
  {
    assert (b + x + rest)[i] == (b + x)[i] == x[i - 4];
  }
}
