/**
 * Hexadecimal text: byte strings and serial numbers as the trust modules compare them.
 */
module Hex {
  import opened ByteStrings

  predicate IsHexDigit(c: char) {
    '0' <= c <= '9' || 'a' <= c <= 'f' || 'A' <= c <= 'F'
  }

  function DigitValue(c: char): (d: nat)
    ensures d < 16
  {
    if '0' <= c <= '9' then c as int - '0' as int
    else if 'a' <= c <= 'f' then c as int - 'a' as int + 10
    else if 'A' <= c <= 'F' then c as int - 'A' as int + 10
    else 0
  }

  function LowerDigit(d: nat): (c: char)
    requires d < 16
    ensures IsHexDigit(c) && DigitValue(c) == d
  {
    if d < 10 then (d + '0' as int) as char else (d - 10 + 'a' as int) as char
  }

  function UpperDigit(d: nat): (c: char)
    requires d < 16
    ensures IsHexDigit(c) && DigitValue(c) == d
  {
    if d < 10 then (d + '0' as int) as char else (d - 10 + 'A' as int) as char
  }

  /** The digits are the usual ones, in both cases. */
  lemma DigitsAreUsual(d: nat)
    requires d < 16
    ensures LowerDigit(d) == "0123456789abcdef"[d] && UpperDigit(d) == "0123456789ABCDEF"[d]
    ensures DigitValue("0123456789abcdef"[d]) == d && DigitValue("0123456789ABCDEF"[d]) == d
  {
  }

  ghost predicate AllHex(s: string) {
    forall i :: 0 <= i < |s| ==> IsHexDigit(s[i])
  }

  /** Every byte as two lower-case digits. */
  function BytesToHex(bs: Bytes): (s: string)
    ensures |s| == 2 * |bs|
  {
    if bs == [] then "" else BytesToHex(bs[..|bs| - 1]) + [LowerDigit(bs[|bs| - 1] / 16), LowerDigit(bs[|bs| - 1] % 16)]
  }

  method BytesToHexLoop(bs: Bytes) returns (out: string)
    ensures out == BytesToHex(bs)
  {
    out := "";
    for i := 0 to |bs|
      invariant out == BytesToHex(bs[..i])
    {
      assert bs[..i + 1][..i] == bs[..i];
      out := out + [LowerDigit(bs[i] / 16), LowerDigit(bs[i] % 16)];
    }
    assert bs[..|bs|] == bs;
  }

  /** The characters that are hexadecimal digits. */
  function Clean(s: string): (r: string)
    ensures AllHex(r)
    ensures AllHex(s) ==> r == s
  {
    if s == "" then ""
    else
      assert s == [s[0]] + s[1..];
      (if IsHexDigit(s[0]) then [s[0]] else "") + Clean(s[1..])
  }

  /** Cleaning goes character by character and drops exactly those that are no digits. */
  lemma {:induction false} CleanKeepsDigits(s: string, c: char)
    ensures Clean(s + [c]) == Clean(s) + if c in "0123456789abcdefABCDEF" then [c] else ""
  {
    assert IsHexDigit(c) <==> c in "0123456789abcdefABCDEF" by { DigitCharacters(c); }
    if s == "" {
      assert s + [c] == [c] && [c][1..] == "";
    } else {
      assert (s + [c])[1..] == s[1..] + [c];
      CleanKeepsDigits(s[1..], c);
    }
  }

  lemma DigitCharacters(c: char)
    ensures IsHexDigit(c) <==> c in "0123456789abcdefABCDEF"
  {
    var digits := "0123456789abcdefABCDEF";
    if '0' <= c <= '9' { assert digits[c as int - 48] == c; }
    if 'a' <= c <= 'f' { assert digits[c as int - 97 + 10] == c; }
    if 'A' <= c <= 'F' { assert digits[c as int - 65 + 16] == c; }
  }

  /** The number a digit string stands for (BigInt of the string prefixed with 0x). */
  function ValueOf(s: string): nat {
    if s == "" then 0 else ValueOf(s[..|s| - 1]) * 16 + DigitValue(s[|s| - 1])
  }

  /** toString(16).toUpperCase() of a non-negative integer. */
  function ToUpperHex(n: nat): (s: string)
    ensures s != ""
  {
    if n < 16 then [UpperDigit(n)] else ToUpperHex(n / 16) + [UpperDigit(n % 16)]
  }

  function NormalizeHexUnsignedInt(hex: string): string {
    var clean := Clean(hex);
    if clean == "" then "" else ToUpperHex(ValueOf(clean))
  }

  lemma {:induction false} UpperHexReadsBack(n: nat)
    ensures ValueOf(ToUpperHex(n)) == n && AllHex(ToUpperHex(n))
  {
    if n < 16 {
      assert [UpperDigit(n)][..0] == "";
    } else {
      UpperHexReadsBack(n / 16);
      var s := ToUpperHex(n);
      assert s[..|s| - 1] == ToUpperHex(n / 16);
    }
  }

  /** Two serials normalize alike exactly when both have digits and are the same integer, or neither has any. */
  lemma NormalizeIsCanonical(a: string, b: string)
    ensures NormalizeHexUnsignedInt(a) == NormalizeHexUnsignedInt(b) <==>
      (Clean(a) == "" <==> Clean(b) == "") && ValueOf(Clean(a)) == ValueOf(Clean(b))
    ensures NormalizeHexUnsignedInt(NormalizeHexUnsignedInt(a)) == NormalizeHexUnsignedInt(a)
  {
    UpperHexReadsBack(ValueOf(Clean(a)));
    UpperHexReadsBack(ValueOf(Clean(b)));
  }

  /** Two digits a byte, all of them in lower case. */
  lemma {:induction false} HexIsLowerCase(bs: Bytes, i: nat)
    requires i < 2 * |bs|
    ensures BytesToHex(bs)[i] ==
      "0123456789abcdef"[if i % 2 == 0 then bs[i / 2] / 16 else bs[i / 2] % 16]
  {
    var n := |bs| - 1;
    if i < 2 * n {
      HexIsLowerCase(bs[..n], i);
    } else {
      DigitsAreUsual(bs[n] / 16);
      DigitsAreUsual(bs[n] % 16);
    }
  }

  /** The hexadecimal form of a byte string is the number the bytes spell, most significant first. */
  lemma {:induction false} HexOfBytesValue(bs: Bytes)
    ensures AllHex(BytesToHex(bs)) && ValueOf(BytesToHex(bs)) == Uint(bs)
  {
    if bs != [] {
      HexOfBytesValue(bs[..|bs| - 1]);
      var s := BytesToHex(bs);
      assert s[..|s| - 1][..|s| - 2] == BytesToHex(bs[..|bs| - 1]);
    }
  }

  function HexPairs(s: string): (bs: Bytes) {
    if |s| < 2 then [] else [DigitValue(s[0]) * 16 + DigitValue(s[1])] + HexPairs(s[2..])
  }

  /** Strips everything that is not a digit, then reads digit pairs; an odd last digit is dropped. */
  function HexToBytes(s: string): Bytes {
    HexPairs(Clean(s))
  }

  lemma {:induction false} PairsSnoc(s: string, t: string)
    requires |s| % 2 == 0
    ensures HexPairs(s + t) == HexPairs(s) + HexPairs(t)
  {
    if s == "" {
      assert s + t == t;
    } else {
      assert (s + t)[2..] == s[2..] + t;
      PairsSnoc(s[2..], t);
    }
  }

  lemma {:induction false} HexRoundTrip(bs: Bytes)
    ensures HexPairs(BytesToHex(bs)) == bs && HexToBytes(BytesToHex(bs)) == bs
  {
    HexOfBytesValue(bs);
    if bs != [] {
      var init, b := bs[..|bs| - 1], bs[|bs| - 1];
      HexRoundTrip(init);
      PairsSnoc(BytesToHex(init), [LowerDigit(b / 16), LowerDigit(b % 16)]);
      assert [LowerDigit(b / 16), LowerDigit(b % 16)][2..] == "";
      assert HexPairs("") == [];
    }
  }

  /** Separators and other characters that are no digits do not matter, nor does an odd last digit. */
  lemma SeparatorsAreIgnored(s: string, bs: Bytes, odd: string)
    requires |odd| < 2 && Clean(s) == BytesToHex(bs) + odd
    ensures HexToBytes(s) == bs
  {
    PairsSnoc(BytesToHex(bs), odd);
    HexRoundTrip(bs);
    assert HexPairs(odd) == [];
  }
}
