/** Byte strings and the numbers they spell, most significant byte first. */
module ByteStrings {

  type byte = x: int | 0 <= x < 256
  type Bytes = seq<byte>

  function Uint(bs: Bytes): nat {
    if bs == [] then 0 else Uint(bs[..|bs| - 1]) * 256 + bs[|bs| - 1]
  }

  /** n in exactly size bytes, most significant first. */
  function BigEndian(size: nat, n: nat): (bs: Bytes)
    ensures |bs| == size
  {
    if size == 0 then [] else BigEndian(size - 1, n / 256) + [n % 256]
  }

  function Pow256(k: nat): nat {
    if k == 0 then 1 else 256 * Pow256(k - 1)
  }

  lemma {:induction false} UintOfBigEndian(size: nat, n: nat)
    requires n < Pow256(size)
    ensures Uint(BigEndian(size, n)) == n
  {
    if size != 0 {
      var bs := BigEndian(size, n);
      assert bs[..|bs| - 1] == BigEndian(size - 1, n / 256);
      UintOfBigEndian(size - 1, n / 256);
    }
  }

  lemma Pow256Values()
    ensures Pow256(1) == 0x100 && Pow256(2) == 0x10000 && Pow256(4) == 0x1_0000_0000
    ensures Pow256(8) == 0x1_0000_0000_0000_0000
  {
    assert Pow256(3) == 0x100_0000;
    assert Pow256(5) == 0x100_0000_0000;
    assert Pow256(6) == 0x1_0000_0000_0000;
    assert Pow256(7) == 0x100_0000_0000_0000;
  }

  lemma {:induction false} UintBound(bs: Bytes)
    ensures Uint(bs) < Pow256(|bs|)
  {
    if bs != [] { UintBound(bs[..|bs| - 1]); }
  }

  lemma UintSnoc(bs: Bytes, b: byte)
    ensures Uint(bs + [b]) == Uint(bs) * 256 + b
  {
    assert (bs + [b])[..|bs|] == bs;
  }

  lemma CutFront(a: Bytes, s: Bytes, b: Bytes, t: Bytes)
    requires a + s == b + t && |a| == |b|
    ensures a == b && s == t
  {
    assert a == (a + s)[..|a|] && b == (b + t)[..|a|];
    assert s == (a + s)[|a|..] && t == (b + t)[|a|..];
  }
}
