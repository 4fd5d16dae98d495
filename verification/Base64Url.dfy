/**
 * The base64url decoder of the verifier (section 5 of RFC 4648): what it accepts, how many
 * bytes it returns, and that it inverts the encoding with or without padding.
 */
module Base64Url {
  import opened Options
  import opened ByteStrings

  /** Index in the alphabet A-Z a-z 0-9 - _, or -1. */
  function CharValue(c: char): (v: int)
    ensures -1 <= v < 64
  {
    if 'A' <= c <= 'Z' then c as int - 'A' as int
    else if 'a' <= c <= 'z' then c as int - 'a' as int + 26
    else if '0' <= c <= '9' then c as int - '0' as int + 52
    else if c == '-' then 62
    else if c == '_' then 63
    else -1
  }

  type sextet = x: int | 0 <= x < 64

  function EncodeChar(v: sextet): (c: char)
    ensures CharValue(c) == v && c != '='
  {
    if v < 26 then (v + 'A' as int) as char
    else if v < 52 then (v - 26 + 'a' as int) as char
    else if v < 62 then (v - 52 + '0' as int) as char
    else if v == 62 then '-' else '_'
  }

  const ALPHABET := "ABCDEFGHIJKLMNOPQRSTUVWXYZ" + "abcdefghijklmnopqrstuvwxyz" + "0123456789-_"

  /** The value of a character is its index in the alphabet of section 5 of RFC 4648, and -1 for any other. */
  lemma CharValueIsIndex(c: char, v: int)
    ensures 0 <= v ==> (CharValue(c) == v <==> v < |ALPHABET| && ALPHABET[v] == c)
    ensures CharValue(c) == -1 <==> c !in ALPHABET
  {
    var capitals, smalls, rest := "ABCDEFGHIJKLMNOPQRSTUVWXYZ", "abcdefghijklmnopqrstuvwxyz", "0123456789-_";
    assert forall i :: 0 <= i < 26 ==> capitals[i] as int == 65 + i && smalls[i] as int == 97 + i;
    assert forall i :: 0 <= i < 10 ==> rest[i] as int == 48 + i;
    assert ALPHABET == capitals + smalls + rest;
    forall i | 0 <= i < 64
      ensures CharValue(ALPHABET[i]) == i
    {
      assert ALPHABET[i] == if i < 26 then capitals[i] else if i < 52 then smalls[i - 26] else rest[i - 52];
    }
    if CharValue(c) != -1 { SameValueSameChar(c, ALPHABET[CharValue(c)]); }
  }

  lemma SameValueSameChar(c: char, d: char)
    requires CharValue(c) == CharValue(d) != -1
    ensures c == d
  {
  }

  function StripPadding(s: string): (r: string)
    ensures r <= s
  {
    if s != "" && s[|s| - 1] == '=' then StripPadding(s[..|s| - 1]) else s
  }

  ghost predicate InAlphabet(s: string) {
    forall i :: 0 <= i < |s| ==> CharValue(s[i]) != -1
  }

  ghost function Values(s: string): (vs: seq<sextet>)
    requires InAlphabet(s)
    ensures |vs| == |s| && forall i :: 0 <= i < |s| ==> vs[i] == CharValue(s[i])
  {
    if s == "" then [] else [CharValue(s[0])] + Values(s[1..])
  }

  predicate IsSextet(x: int) {
    0 <= x < 64
  }

  // The three bytes four sextets spell.

  function Byte0(a: int, b: int): byte
    requires IsSextet(a) && IsSextet(b)
  {
    a * 4 + b / 16
  }

  function Byte1(b: int, c: int): byte
    requires IsSextet(b) && IsSextet(c)
  {
    b % 16 * 16 + c / 4
  }

  function Byte2(c: int, d: int): byte
    requires IsSextet(c) && IsSextet(d)
  {
    c % 4 * 64 + d
  }

  function Group(a: int, b: int, c: int, d: int): (bs: Bytes)
    requires IsSextet(a) && IsSextet(b) && IsSextet(c) && IsSextet(d)
    ensures |bs| == 3
  {
    [Byte0(a, b), Byte1(b, c), Byte2(c, d)]
  }

  /** Three bytes are four sextets, most significant first: the same number in base 256 and in base 64. */
  lemma GroupIsSameNumber(a: sextet, b: sextet, c: sextet, d: sextet)
    ensures Uint(Group(a, b, c, d)) == ((a * 64 + b) * 64 + c) * 64 + d
  {
    var bs := Group(a, b, c, d);
    assert bs == [] + [bs[0]] + [bs[1]] + [bs[2]];
    UintSnoc([], bs[0]);
    UintSnoc([] + [bs[0]], bs[1]);
    UintSnoc([] + [bs[0]] + [bs[1]], bs[2]);
  }

  /** A last group of two or three sextets spells one or two bytes, a single one none. */
  function DecodeValues(vs: seq<sextet>): (bs: Bytes)
    ensures |bs| == |vs| * 3 / 4
  {
    if |vs| < 2 then []
    else if |vs| == 2 then [Byte0(vs[0], vs[1])]
    else if |vs| == 3 then [Byte0(vs[0], vs[1]), Byte1(vs[1], vs[2])]
    else Group(vs[0], vs[1], vs[2], vs[3]) + DecodeValues(vs[4..])
  }

  /** Section 5 of RFC 4648, without padding. */
  function EncodeValues(bs: Bytes): seq<sextet> {
    if |bs| == 0 then []
    else if |bs| == 1 then [bs[0] / 4, bs[0] % 4 * 16]
    else if |bs| == 2 then [bs[0] / 4, bs[0] % 4 * 16 + bs[1] / 16, bs[1] % 16 * 4]
    else [bs[0] / 4, bs[0] % 4 * 16 + bs[1] / 16, bs[1] % 16 * 4 + bs[2] / 64, bs[2] % 64] + EncodeValues(bs[3..])
  }

  function Encode(bs: Bytes): string {
    Chars(EncodeValues(bs))
  }

  function Chars(vs: seq<sextet>): (s: string)
    ensures |s| == |vs| && forall i :: 0 <= i < |vs| ==> s[i] == EncodeChar(vs[i])
  {
    if vs == [] then "" else [EncodeChar(vs[0])] + Chars(vs[1..])
  }

  /** The value at position i of the stripped input, 0 past its end, -1 outside the alphabet. */
  function ValueAt(s: string, i: nat): int {
    if i < |s| then CharValue(s[i]) else 0
  }

  /** None where the original throws. */
  method Base64UrlToBytes(input: string) returns (r: Option<Bytes>)
    ensures r.Some? <==> InAlphabet(StripPadding(input))
    ensures r.Some? ==> r.value == DecodeValues(Values(StripPadding(input)))
  {
    var cleaned := StripPadding(input);
    var bytes := new byte[|cleaned| * 3 / 4](_ => 0);
    var byteIndex := 0;
    var i := 0;
    EmptyDecoded(cleaned);
    assert bytes[..byteIndex] == [];
    while i < |cleaned|
      invariant 0 <= byteIndex <= bytes.Length == |cleaned| * 3 / 4
      invariant LoopState(cleaned, i, bytes[..byteIndex])
      decreases |cleaned| - i
    {
      var next := DecodeTurn(cleaned, i, bytes, byteIndex);
      if next.None? {
        return None;
      }
      byteIndex := next.value;
      i := i + 4;
    }
    AllDecoded(cleaned, i, bytes[..byteIndex]);
    assert bytes[..byteIndex] == bytes[..];
    r := Some(bytes[..]);
  }

  /** One turn of the loop: the new write position, or None at a character outside the alphabet. */
  method DecodeTurn(s: string, i: nat, bytes: array<byte>, byteIndex: nat) returns (next: Option<nat>)
    requires i < |s| && byteIndex <= bytes.Length == |s| * 3 / 4 && LoopState(s, i, bytes[..byteIndex])
    modifies bytes
    ensures next.None? ==> !InAlphabet(s)
    ensures next.Some? ==> next.value <= bytes.Length && LoopState(s, i + 4, bytes[..next.value])
  {
    var a, b := ValueAt(s, i), ValueAt(s, i + 1);
    var c, d := ValueAt(s, i + 2), ValueAt(s, i + 3);
    if a == -1 || b == -1 || c == -1 || d == -1 {
      OutsideAlphabet(s, if a == -1 then i else if b == -1 then i + 1 else if c == -1 then i + 2 else i + 3);
      return None;
    }
    TurnDecodes(s, i, bytes[..byteIndex], a, b, c, d);
    var end := WriteGroup(bytes, byteIndex, a, b, c, d);
    next := Some(end);
  }

  /** Three stores; the first is ignored past the end of the array as for any typed array. */
  method WriteGroup(bytes: array<byte>, start: nat, a: int, b: int, c: int, d: int) returns (next: nat)
    requires start <= bytes.Length && IsSextet(a) && IsSextet(b) && IsSextet(c) && IsSextet(d)
    modifies bytes
    ensures next == Min(start + 3, bytes.Length)
    ensures bytes[..next] == old(bytes[..start]) + Group(a, b, c, d)[..next - start]
  {
    next := start;
    if next < bytes.Length { bytes[next] := Byte0(a, b); next := next + 1; }
    if next < bytes.Length { bytes[next] := Byte1(b, c); next := next + 1; }
    if next < bytes.Length { bytes[next] := Byte2(c, d); next := next + 1; }
  }

  function Min(a: nat, b: nat): nat {
    if a < b then a else b
  }

  /** The group, cut where the result ends, is what the characters from position i to i + 3 spell. */
  ghost predicate Spells(s: string, i: nat, group: Bytes)
    requires i < |s|
  {
    && |group| == 3
    && (InAlphabet(s) ==>
      DecodeValues(Values(s)[i..]) ==
        group[..Min(3, (|s| - i) * 3 / 4)] + DecodeValues(Values(s)[Min(i + 4, |s|)..]))
  }

  lemma DecodeGroup(s: string, i: nat, a: int, b: int, c: int, d: int)
    requires i < |s| && IsSextet(a) && IsSextet(b) && IsSextet(c) && IsSextet(d)
    requires a == ValueAt(s, i) && b == ValueAt(s, i + 1) && c == ValueAt(s, i + 2) && d == ValueAt(s, i + 3)
    ensures Spells(s, i, Group(a, b, c, d))
    ensures forall k :: i <= k < i + 4 ==> ValueAt(s, k) != -1
  {
    if InAlphabet(s) {
      var vs, rest := Values(s), Values(s)[i..];
      assert rest[0] == a;
      assert rest[Min(4, |rest|)..] == vs[Min(i + 4, |s|)..];
      HeadDecodes(rest, a, b, c, d);
    }
  }

  lemma HeadDecodes(vs: seq<sextet>, a: int, b: int, c: int, d: int)
    requires vs != [] && vs[0] == a
    requires b == (if 1 < |vs| then vs[1] else 0) && c == (if 2 < |vs| then vs[2] else 0)
    requires d == if 3 < |vs| then vs[3] else 0
    ensures DecodeValues(vs) == Group(a, b, c, d)[..Min(3, |vs| * 3 / 4)] + DecodeValues(vs[Min(4, |vs|)..])
  {
    var group, k := Group(a, b, c, d), Min(3, |vs| * 3 / 4);
    if |vs| >= 4 {
      assert k == 3 && group[..k] == group;
    } else {
      assert k == |vs| - 1;
      LastGroup(vs, group);
    }
  }

  lemma LastGroup(vs: seq<sextet>, group: Bytes)
    requires 0 < |vs| < 4 && |group| == 3
    requires |vs| > 1 ==> group[0] == Byte0(vs[0], vs[1])
    requires |vs| > 2 ==> group[1] == Byte1(vs[1], vs[2])
    ensures DecodeValues(vs) == group[..|vs| - 1] + DecodeValues(vs[|vs|..])
  {
  }

  /**
   * The characters before position i are in the alphabet, and done, followed by what the rest
   * decodes to, is the whole result.
   */
  ghost predicate Decoded(s: string, i: nat, done: Bytes) {
    && (forall k :: 0 <= k < |s| && k < i ==> CharValue(s[k]) != -1)
    && (InAlphabet(s) ==> done + DecodeValues(Values(s)[Min(i, |s|)..]) == DecodeValues(Values(s)))
  }

  /** What holds between two turns of the loop. */
  ghost predicate LoopState(s: string, i: nat, done: Bytes) {
    (i < |s| ==> i % 4 == 0 && |done| == i / 4 * 3) && Decoded(s, i, done)
  }

  lemma TurnDecodes(s: string, i: nat, done: Bytes, a: int, b: int, c: int, d: int)
    requires i < |s| && LoopState(s, i, done)
    requires IsSextet(a) && IsSextet(b) && IsSextet(c) && IsSextet(d)
    requires a == ValueAt(s, i) && b == ValueAt(s, i + 1) && c == ValueAt(s, i + 2) && d == ValueAt(s, i + 3)
    ensures |done| <= |s| * 3 / 4
    ensures LoopState(s, i + 4, done + Group(a, b, c, d)[..Min(|done| + 3, |s| * 3 / 4) - |done|])
  {
    DecodeGroup(s, i, a, b, c, d);
    GroupDecodes(s, i, done, Group(a, b, c, d));
  }

  lemma GroupDecodes(s: string, i: nat, done: Bytes, group: Bytes)
    requires i < |s| && LoopState(s, i, done) && Spells(s, i, group)
    requires forall k :: i <= k < i + 4 ==> ValueAt(s, k) != -1
    ensures |done| <= |s| * 3 / 4
    ensures LoopState(s, i + 4, done + group[..Min(|done| + 3, |s| * 3 / 4) - |done|])
  {
    TurnCounts(|s|, i, |done|);
    GroupInAlphabet(s, i);
    if InAlphabet(s) {
      Regroup(done, group[..Min(3, (|s| - i) * 3 / 4)], DecodeValues(Values(s)[Min(i + 4, |s|)..]));
    }
  }

  /** How many bytes a turn adds. */
  lemma TurnCounts(n: nat, i: nat, count: nat)
    requires i < n && i % 4 == 0 && count == i / 4 * 3
    ensures count <= n * 3 / 4
    ensures Min(count + 3, n * 3 / 4) - count == Min(3, (n - i) * 3 / 4)
    ensures i + 4 < n ==> (i + 4) % 4 == 0 && count + 3 == (i + 4) / 4 * 3 <= n * 3 / 4
  {
    var q := i / 4;
    assert i == 4 * q && count == 3 * q;
    assert n * 3 == (n - i) * 3 + 12 * q;
  }

  lemma OutsideAlphabet(s: string, k: nat)
    requires ValueAt(s, k) == -1
    ensures !InAlphabet(s)
  {
  }

  lemma GroupInAlphabet(s: string, i: nat)
    requires forall k :: 0 <= k < |s| && k < i ==> CharValue(s[k]) != -1
    requires forall k :: i <= k < i + 4 ==> ValueAt(s, k) != -1
    ensures forall k :: 0 <= k < |s| && k < i + 4 ==> CharValue(s[k]) != -1
  {
    forall k | i <= k < |s| && k < i + 4
      ensures CharValue(s[k]) != -1
    {
      assert ValueAt(s, k) == CharValue(s[k]);
    }
  }

  lemma Regroup(a: Bytes, b: Bytes, c: Bytes)
    ensures a + (b + c) == (a + b) + c
  {
  }

  lemma EmptyDecoded(s: string)
    ensures LoopState(s, 0, [])
  {
    if InAlphabet(s) { assert Values(s)[0..] == Values(s); }
  }

  lemma AllDecoded(s: string, i: nat, done: Bytes)
    requires i >= |s| && LoopState(s, i, done)
    ensures InAlphabet(s) && done == DecodeValues(Values(s))
  {
    assert Values(s)[|s|..] == [];
    assert done + [] == done;
  }

  /** Splitting bytes into sextets and joining them again. */
  lemma SextetsRejoin(x: byte, y: byte, z: byte)
    ensures Byte0(x / 4, x % 4 * 16 + y / 16) == x
    ensures Byte1(x % 4 * 16 + y / 16, y % 16 * 4 + z / 64) == y
    ensures Byte2(y % 16 * 4 + z / 64, z % 64) == z
  {
  }

  lemma {:induction false} ValuesRoundTrip(bs: Bytes)
    ensures DecodeValues(EncodeValues(bs)) == bs
  {
    if |bs| > 2 {
      SextetsRejoin(bs[0], bs[1], bs[2]);
      ValuesRoundTrip(bs[3..]);
      assert EncodeValues(bs)[4..] == EncodeValues(bs[3..]);
    } else if |bs| == 2 {
      SextetsRejoin(bs[0], bs[1], 0);
    } else if |bs| == 1 {
      SextetsRejoin(bs[0], 0, 0);
    }
  }

  lemma {:induction false} StripPadded(s: string, pad: string)
    requires forall i :: 0 <= i < |pad| ==> pad[i] == '='
    ensures StripPadding(s + pad) == StripPadding(s)
  {
    if pad == "" {
      assert s + pad == s;
    } else {
      assert (s + pad)[..|s + pad| - 1] == s + pad[..|pad| - 1];
      StripPadded(s, pad[..|pad| - 1]);
    }
  }

  /** Any number of trailing padding characters after an encoding decodes to the encoded bytes. */
  lemma DecodingInvertsEncoding(bs: Bytes, pad: string)
    requires forall i :: 0 <= i < |pad| ==> pad[i] == '='
    ensures var s := StripPadding(Encode(bs) + pad); InAlphabet(s) && DecodeValues(Values(s)) == bs
  {
    StripPadded(Encode(bs), pad);
    assert StripPadding(Encode(bs)) == Encode(bs);
    assert Values(Encode(bs)) == EncodeValues(bs);
    ValuesRoundTrip(bs);
  }
}
