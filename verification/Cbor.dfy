/**
 * CBOR framing (RFC 8949): which byte strings are exactly one well-formed data item,
 * and why such items can be spliced next to each other without ambiguity.
 */
module Cbor {
  import opened Options
  import opened ByteStrings

  // ----- Well-formedness, after appendix C of RFC 8949 -----

  datatype Head = Head(mt: nat, ai: nat, val: nat, rest: Bytes)

  /** What one data item leaves over: its major type (99 when indefinite) and the bytes after it. */
  datatype Scan = Bad | Item(mt: nat, rest: Bytes) | Break(rest: Bytes)

  /** How many bytes follow the initial byte to spell out the argument. */
  function ArgumentSize(ai: nat): nat {
    if ai == 24 then 1 else if ai == 25 then 2 else if ai == 26 then 4 else if ai == 27 then 8 else 0
  }

  function ReadHead(bs: Bytes): (h: Option<Head>)
    ensures h.Some? ==> |h.value.rest| < |bs|
  {
    if bs == [] then None
    else
      var mt, ai := bs[0] / 32, bs[0] % 32;
      var n := ArgumentSize(ai);
      if 28 <= ai <= 30 || |bs| < 1 + n then None
      else Some(Head(mt, ai, if n == 0 then ai else Uint(bs[1..1 + n]), bs[1 + n..]))
  }

  function ScanItem(bs: Bytes, breakable: bool): (r: Scan)
    ensures !r.Bad? ==> |r.rest| < |bs|
    decreases |bs|, 0
  {
    match ReadHead(bs)
    case None => Bad
    case Some(h) => if h.ai == 31 then ScanIndefinite(h, breakable) else ScanDefinite(h)
  }

  function ScanDefinite(h: Head): (r: Scan)
    ensures !r.Bad? ==> r.Item? && |r.rest| <= |h.rest|
    decreases |h.rest|, 3
  {
    match h.mt
    case 0 => Item(0, h.rest)
    case 1 => Item(1, h.rest)
    case 2 => if |h.rest| < h.val then Bad else Item(2, h.rest[h.val..])
    case 3 => if |h.rest| < h.val then Bad else Item(3, h.rest[h.val..])
    case 4 => AsItem(4, ScanItems(h.rest, h.val))
    case 5 => AsItem(5, ScanItems(h.rest, 2 * h.val))
    case 6 => AsItem(6, ScanItems(h.rest, 1))
    case _ => if h.ai == 24 && h.val < 32 then Bad else Item(7, h.rest)
  }

  function ScanIndefinite(h: Head, breakable: bool): (r: Scan)
    ensures !r.Bad? ==> |r.rest| <= |h.rest|
    decreases |h.rest|, 3
  {
    match h.mt
    case 2 => AsItem(99, ScanChunks(h.rest, 2))
    case 3 => AsItem(99, ScanChunks(h.rest, 3))
    case 4 => AsItem(99, ScanUntilBreak(h.rest, false))
    case 5 => AsItem(99, ScanUntilBreak(h.rest, true))
    case 7 => if breakable then Break(h.rest) else Bad
    case _ => Bad
  }

  function AsItem(mt: nat, rest: Option<Bytes>): Scan {
    match rest
    case None => Bad
    case Some(bs) => Item(mt, bs)
  }

  /** Exactly n items in a row. */
  function ScanItems(bs: Bytes, n: nat): (r: Option<Bytes>)
    ensures r.Some? ==> |r.value| <= |bs|
    decreases |bs|, 2
  {
    if n == 0 then Some(bs)
    else match ScanItem(bs, false)
      case Item(_, rest) => ScanItems(rest, n - 1)
      case _ => None
  }

  /** Definite-length chunks of one major type, up to a break. */
  function ScanChunks(bs: Bytes, mt: nat): (r: Option<Bytes>)
    ensures r.Some? ==> |r.value| <= |bs|
    decreases |bs|, 2
  {
    match ScanItem(bs, true)
    case Bad => None
    case Break(rest) => Some(rest)
    case Item(it, rest) => if it != mt then None else ScanChunks(rest, mt)
  }

  /** Items (or pairs of items) up to a break in key position. */
  function ScanUntilBreak(bs: Bytes, pairs: bool): (r: Option<Bytes>)
    ensures r.Some? ==> |r.value| <= |bs|
    decreases |bs|, 2
  {
    match ScanItem(bs, true)
    case Bad => None
    case Break(rest) => Some(rest)
    case Item(_, rest) =>
      if !pairs then ScanUntilBreak(rest, pairs)
      else match ScanItem(rest, false)
        case Item(_, rest') => ScanUntilBreak(rest', pairs)
        case _ => None
  }

  /** bs is one well-formed data item and nothing else. */
  predicate IsItem(bs: Bytes) {
    var r := ScanItem(bs, false);
    r.Item? && r.rest == []
  }

  // ----- A scan never looks past the item it consumes -----

  function Extend(r: Scan, t: Bytes): Scan {
    match r
    case Bad => Bad
    case Item(mt, rest) => Item(mt, rest + t)
    case Break(rest) => Break(rest + t)
  }

  lemma ReadHeadLocal(bs: Bytes, t: Bytes)
    requires ReadHead(bs).Some?
    ensures ReadHead(bs + t) == Some(ReadHead(bs).value.(rest := ReadHead(bs).value.rest + t))
  {
    var n := ArgumentSize(bs[0] % 32);
    assert (bs + t)[0] == bs[0];
    assert (bs + t)[1..1 + n] == bs[1..1 + n];
    assert (bs + t)[1 + n..] == bs[1 + n..] + t;
  }

  lemma {:induction false} ScanItemLocal(bs: Bytes, breakable: bool, t: Bytes)
    requires !ScanItem(bs, breakable).Bad?
    ensures ScanItem(bs + t, breakable) == Extend(ScanItem(bs, breakable), t)
    decreases |bs|, 0
  {
    ReadHeadLocal(bs, t);
    var h := ReadHead(bs).value;
    if h.ai == 31 { ScanIndefiniteLocal(h, breakable, t); } else { ScanDefiniteLocal(h, t); }
  }

  lemma {:induction false} ScanIndefiniteLocal(h: Head, breakable: bool, t: Bytes)
    requires !ScanIndefinite(h, breakable).Bad?
    ensures ScanIndefinite(h.(rest := h.rest + t), breakable) == Extend(ScanIndefinite(h, breakable), t)
    decreases |h.rest|, 3
  {
    match h.mt
    case 2 => ScanChunksLocal(h.rest, 2, t);
    case 3 => ScanChunksLocal(h.rest, 3, t);
    case 4 => ScanUntilBreakLocal(h.rest, false, t);
    case 5 => ScanUntilBreakLocal(h.rest, true, t);
    case _ =>
  }

  lemma {:induction false} ScanDefiniteLocal(h: Head, t: Bytes)
    requires !ScanDefinite(h).Bad?
    ensures ScanDefinite(h.(rest := h.rest + t)) == Extend(ScanDefinite(h), t)
    decreases |h.rest|, 3
  {
    match h.mt
    case 2 => assert (h.rest + t)[h.val..] == h.rest[h.val..] + t;
    case 3 => assert (h.rest + t)[h.val..] == h.rest[h.val..] + t;
    case 4 => ScanItemsLocal(h.rest, h.val, t);
    case 5 => ScanItemsLocal(h.rest, 2 * h.val, t);
    case 6 => ScanItemsLocal(h.rest, 1, t);
    case _ =>
  }

  lemma {:induction false} ScanItemsLocal(bs: Bytes, n: nat, t: Bytes)
    requires ScanItems(bs, n).Some?
    ensures ScanItems(bs + t, n) == Some(ScanItems(bs, n).value + t)
    decreases |bs|, 2
  {
    if n != 0 {
      ScanItemLocal(bs, false, t);
      ScanItemsLocal(ScanItem(bs, false).rest, n - 1, t);
    }
  }

  lemma {:induction false} ScanChunksLocal(bs: Bytes, mt: nat, t: Bytes)
    requires ScanChunks(bs, mt).Some?
    ensures ScanChunks(bs + t, mt) == Some(ScanChunks(bs, mt).value + t)
    decreases |bs|, 2
  {
    ScanItemLocal(bs, true, t);
    if ScanItem(bs, true).Item? { ScanChunksLocal(ScanItem(bs, true).rest, mt, t); }
  }

  lemma {:induction false} ScanUntilBreakLocal(bs: Bytes, pairs: bool, t: Bytes)
    requires ScanUntilBreak(bs, pairs).Some?
    ensures ScanUntilBreak(bs + t, pairs) == Some(ScanUntilBreak(bs, pairs).value + t)
    decreases |bs|, 2
  {
    ScanItemLocal(bs, true, t);
    if ScanItem(bs, true).Item? {
      var rest := ScanItem(bs, true).rest;
      if pairs {
        ScanItemLocal(rest, false, t);
        ScanUntilBreakLocal(ScanItem(rest, false).rest, pairs, t);
      } else {
        ScanUntilBreakLocal(rest, pairs, t);
      }
    }
  }

  lemma ItemThenTail(a: Bytes, s: Bytes)
    requires IsItem(a)
    ensures ScanItem(a + s, false) == Item(ScanItem(a, false).mt, s)
  {
    ScanItemLocal(a, false, s);
    assert [] + s == s;
  }

  /** Well-formed items are prefix-free: two items followed by anything can only collide when they are equal. */
  lemma ItemsArePrefixFree(a: Bytes, s: Bytes, b: Bytes, t: Bytes)
    requires IsItem(a) && IsItem(b) && a + s == b + t
    ensures a == b && s == t
  {
    ItemThenTail(a, s);
    ItemThenTail(b, t);
    assert a == (a + s)[..|a|] && b == (b + t)[..|b|];
  }

  // ----- Encoding with the shortest heads (section 4.2.1 of RFC 8949) -----

  const MAX_ARGUMENT: nat := 0x1_0000_0000_0000_0000

  function EncodeHead(mt: nat, n: nat): Bytes
    requires mt < 8
  {
    if n < 24 then [mt * 32 + n]
    else if n < 0x100 then [mt * 32 + 24] + BigEndian(1, n)
    else if n < 0x10000 then [mt * 32 + 25] + BigEndian(2, n)
    else if n < 0x1_0000_0000 then [mt * 32 + 26] + BigEndian(4, n)
    else [mt * 32 + 27] + BigEndian(8, n)
  }

  lemma LongHeadReadsBack(mt: nat, ai: nat, n: nat, t: Bytes)
    requires mt < 8 && 24 <= ai <= 27 && n < Pow256(ArgumentSize(ai))
    ensures ReadHead([mt * 32 + ai] + BigEndian(ArgumentSize(ai), n) + t) == Some(Head(mt, ai, n, t))
  {
    var size := ArgumentSize(ai);
    var bs := [mt * 32 + ai] + BigEndian(size, n) + t;
    assert bs[0] / 32 == mt && bs[0] % 32 == ai;
    assert bs[1..1 + size] == BigEndian(size, n) && bs[1 + size..] == t;
    UintOfBigEndian(size, n);
  }

  lemma EncodedHeadReadsBack(mt: nat, n: nat, t: Bytes)
    requires mt < 8 && n < MAX_ARGUMENT
    ensures ReadHead(EncodeHead(mt, n) + t).Some?
    ensures var h := ReadHead(EncodeHead(mt, n) + t).value;
      h.mt == mt && h.val == n && h.rest == t && h.ai != 31 && (h.ai == 24 ==> 24 <= n)
  {
    Pow256Values();
    if n < 24 {
      var bs := [mt * 32 + n] + t;
      assert bs[0] / 32 == mt && bs[0] % 32 == n && bs[1..] == t;
    } else {
      var ai := if n < 0x100 then 24 else if n < 0x10000 then 25 else if n < 0x1_0000_0000 then 26 else 27;
      LongHeadReadsBack(mt, ai, n, t);
    }
  }

  /** Any head that reads back as the same argument is at least as long. */
  lemma EncodedHeadIsShortest(mt: nat, n: nat, bs: Bytes, t: Bytes)
    requires mt < 8 && n < MAX_ARGUMENT
    requires bs + t != [] && (bs + t)[0] % 32 != 31
    requires ReadHead(bs + t) == Some(Head(mt, (bs + t)[0] % 32, n, t))
    ensures |EncodeHead(mt, n)| <= |bs|
  {
    var all := bs + t;
    var size := ArgumentSize(all[0] % 32);
    assert |all[1 + size..]| == |t| && |bs| == 1 + size;
    if size != 0 {
      UintBound(all[1..1 + size]);
      Pow256Values();
    }
  }

  function ByteString(bs: Bytes): Bytes {
    EncodeHead(2, |bs|) + bs
  }

  /** A text string, given by its UTF-8 bytes. */
  function Text(utf8: Bytes): Bytes {
    EncodeHead(3, |utf8|) + utf8
  }

  const NULL: Bytes := [0xf6]

  function Tag24(inner: Bytes): Bytes {
    [0xd8, 0x18] + ByteString(inner)
  }

  function Concat(chunks: seq<Bytes>): Bytes {
    if chunks == [] then [] else chunks[0] + Concat(chunks[1..])
  }

  function Array(items: seq<Bytes>): Bytes {
    EncodeHead(4, |items|) + Concat(items)
  }

  lemma StringsAreItems(bs: Bytes)
    requires |bs| < MAX_ARGUMENT
    ensures IsItem(ByteString(bs)) && ScanItem(ByteString(bs), false).mt == 2
    ensures IsItem(Text(bs)) && ScanItem(Text(bs), false).mt == 3
  {
    EncodedHeadReadsBack(2, |bs|, bs);
    EncodedHeadReadsBack(3, |bs|, bs);
  }

  lemma StringsAreInjective(a: Bytes, b: Bytes)
    requires |a| < MAX_ARGUMENT && |b| < MAX_ARGUMENT
    ensures ByteString(a) == ByteString(b) ==> a == b
    ensures Text(a) == Text(b) ==> a == b
  {
    EncodedHeadReadsBack(2, |a|, a);
    EncodedHeadReadsBack(2, |b|, b);
    EncodedHeadReadsBack(3, |a|, a);
    EncodedHeadReadsBack(3, |b|, b);
  }

  lemma Tag24IsItem(inner: Bytes)
    requires |inner| < MAX_ARGUMENT
    ensures IsItem(Tag24(inner)) && ScanItem(Tag24(inner), false).mt == 6
  {
    var bs := Tag24(inner);
    StringsAreItems(inner);
    assert bs[1..2] == [0x18] && bs[2..] == ByteString(inner);
    assert Uint([0x18]) == 24;
    assert ScanItems(ByteString(inner), 1) == ScanItems([], 0);
  }

  lemma Tag24IsInjective(a: Bytes, b: Bytes)
    requires |a| < MAX_ARGUMENT && |b| < MAX_ARGUMENT
    requires Tag24(a) == Tag24(b)
    ensures a == b
  {
    assert ByteString(a) == Tag24(a)[2..] && ByteString(b) == Tag24(b)[2..];
    StringsAreInjective(a, b);
  }

  ghost predicate AllItems(items: seq<Bytes>) {
    forall i :: 0 <= i < |items| ==> IsItem(items[i])
  }

  lemma {:induction false} ConcatScans(items: seq<Bytes>, t: Bytes)
    requires AllItems(items)
    ensures ScanItems(Concat(items) + t, |items|) == Some(t)
  {
    if items == [] {
      assert Concat(items) + t == t;
    } else {
      ConcatScans(items[1..], t);
      assert Concat(items) + t == items[0] + (Concat(items[1..]) + t);
      ItemThenTail(items[0], Concat(items[1..]) + t);
    }
  }

  lemma ArrayIsItem(items: seq<Bytes>)
    requires AllItems(items) && |items| < MAX_ARGUMENT
    ensures IsItem(Array(items)) && ScanItem(Array(items), false).mt == 4
  {
    EncodedHeadReadsBack(4, |items|, Concat(items));
    ConcatScans(items, []);
    assert Concat(items) + [] == Concat(items);
  }

  lemma {:induction false} ConcatIsInjective(xs: seq<Bytes>, ys: seq<Bytes>)
    requires AllItems(xs) && AllItems(ys) && |xs| == |ys| && Concat(xs) == Concat(ys)
    ensures xs == ys
  {
    if xs != [] {
      ItemsArePrefixFree(xs[0], Concat(xs[1..]), ys[0], Concat(ys[1..]));
      ConcatIsInjective(xs[1..], ys[1..]);
    }
  }

  /** An array determines its items, however the items themselves were produced. */
  lemma ArrayIsInjective(xs: seq<Bytes>, ys: seq<Bytes>)
    requires AllItems(xs) && AllItems(ys) && |xs| < MAX_ARGUMENT && |ys| < MAX_ARGUMENT
    requires Array(xs) == Array(ys)
    ensures xs == ys
  {
    EncodedHeadReadsBack(4, |xs|, Concat(xs));
    EncodedHeadReadsBack(4, |ys|, Concat(ys));
    ConcatIsInjective(xs, ys);
  }

  // ----- Reading encoded items back -----

  /** The content of a definite-length string of that major type, and what follows it. */
  function ReadString(mt: nat, bs: Bytes): Option<(Bytes, Bytes)> {
    match ReadHead(bs)
    case Some(h) =>
      if h.mt != mt || h.ai == 31 || |h.rest| < h.val then None else Some((h.rest[..h.val], h.rest[h.val..]))
    case None => None
  }

  /** A strict reader of #6.24(bstr): the wrapped bytes and what follows them. */
  function ReadTag24(bs: Bytes): Option<(Bytes, Bytes)> {
    if |bs| < 2 || bs[..2] != [0xd8, 0x18] then None else ReadString(2, bs[2..])
  }

  /** bs as exactly n items, each with its own bytes. */
  function ReadElements(bs: Bytes, n: nat): Option<seq<Bytes>>
    decreases n
  {
    if n == 0 then if bs == [] then Some([]) else None
    else match ScanItem(bs, false)
      case Item(_, rest) =>
        (match ReadElements(rest, n - 1)
         case Some(items) => Some([bs[..|bs| - |rest|]] + items)
         case None => None)
      case _ => None
  }

  /** The elements of a definite-length array that is all of bs. */
  function ReadArray(bs: Bytes): Option<seq<Bytes>> {
    match ReadHead(bs)
    case Some(h) => if h.mt != 4 || h.ai == 31 then None else ReadElements(h.rest, h.val)
    case None => None
  }

  ghost predicate IsByteString(item: Bytes, content: Bytes) {
    ReadString(2, item) == Some((content, []))
  }

  ghost predicate IsText(item: Bytes, utf8: Bytes) {
    ReadString(3, item) == Some((utf8, []))
  }

  ghost predicate IsTag24(item: Bytes, inner: Bytes) {
    ReadTag24(item) == Some((inner, []))
  }

  /** A text item with these ASCII characters. */
  ghost predicate Says(item: Bytes, s: string) {
    exists utf8 :: IsText(item, utf8) && |utf8| == |s| && forall i :: 0 <= i < |s| ==> utf8[i] as int == s[i] as int
  }

  lemma StringReadsBack(mt: nat, bs: Bytes, t: Bytes)
    requires mt < 8 && |bs| < MAX_ARGUMENT
    ensures ReadString(mt, EncodeHead(mt, |bs|) + bs + t) == Some((bs, t))
  {
    EncodedHeadReadsBack(mt, |bs|, bs + t);
    assert EncodeHead(mt, |bs|) + bs + t == EncodeHead(mt, |bs|) + (bs + t);
    assert (bs + t)[..|bs|] == bs && (bs + t)[|bs|..] == t;
  }

  /** Encoded strings read back as their content. */
  lemma StringItemsReadBack(bs: Bytes)
    requires |bs| < MAX_ARGUMENT
    ensures IsByteString(ByteString(bs), bs) && IsText(Text(bs), bs)
  {
    StringReadsBack(2, bs, []);
    StringReadsBack(3, bs, []);
    assert ByteString(bs) + [] == ByteString(bs) && Text(bs) + [] == Text(bs);
  }

  lemma Tag24ReadsBack(inner: Bytes, t: Bytes)
    requires |inner| < MAX_ARGUMENT
    ensures ReadTag24(Tag24(inner) + t) == Some((inner, t))
  {
    var bs := Tag24(inner) + t;
    assert bs[..2] == [0xd8, 0x18] && bs[2..] == ByteString(inner) + t;
    StringReadsBack(2, inner, t);
  }

  lemma {:induction false} ElementsReadBack(items: seq<Bytes>)
    requires AllItems(items)
    ensures ReadElements(Concat(items), |items|) == Some(items)
  {
    if items != [] {
      var rest := Concat(items[1..]);
      ElementsReadBack(items[1..]);
      ItemThenTail(items[0], rest);
      assert (items[0] + rest)[..|items[0] + rest| - |rest|] == items[0];
      assert items == [items[0]] + items[1..];
    }
  }

  /** An encoded array of well-formed items reads back as these items, in order. */
  lemma ArrayReadsBack(items: seq<Bytes>)
    requires AllItems(items) && |items| < MAX_ARGUMENT
    ensures ReadArray(Array(items)) == Some(items)
  {
    EncodedHeadReadsBack(4, |items|, Concat(items));
    ElementsReadBack(items);
  }
}
