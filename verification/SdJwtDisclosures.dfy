/**
 * The transitive disclosure check of the SD-JWT parser (step 7 of `parse`): a
 * presentation passes only when every disclosure is anchored by the issuer payload
 * or by the value of an already anchored disclosure (section 7.1 of RFC 9901).
 */
module SdJwtDisclosures {
  import opened Options
  import opened SdJwtAnchors
  import opened CommitmentClosure

  /** A decoded disclosure; a property disclosure has three elements, an element disclosure two. */
  datatype Disclosure = Disclosure(hash: string, isProperty: bool, value: Json) {
    function Needs(): Anchor {
      if isProperty then Property(hash) else Element(hash)
    }
  }

  datatype Verdict = Accepted | NotJson | WrongArity | HashMismatch

  ghost function View(ds: seq<Disclosure>): (nodes: seq<Node>)
    ensures |nodes| == |ds|
  {
    seq(|ds|, i requires 0 <= i < |ds| => Node(ds[i].Needs(), AnchorsOf(ds[i].value)))
  }

  ghost function SetOf(s: seq<nat>): set<nat> {
    set i | i in s
  }

  lemma SetOfStep(s: seq<nat>, k: nat)
    requires k < |s|
    ensures SetOf(s[..k + 1]) == SetOf(s[..k]) + {s[k]}
    ensures s[k] in SetOf(s)
    ensures NoDuplicates(s) ==> s[k] !in SetOf(s[..k])
  {
    assert s[..k + 1] == s[..k] + [s[k]];
  }

  ghost predicate NoDuplicates(s: seq<nat>) {
    forall i, j :: 0 <= i < j < |s| ==> s[i] != s[j]
  }

  function IndexOf(s: seq<nat>, x: nat): (r: int)
    ensures r == -1 ==> x !in s
    ensures r != -1 ==> 0 <= r < |s| && s[r] == x
  {
    if s == [] then -1
    else if s[0] == x then 0
    else var r := IndexOf(s[1..], x); if r == -1 then -1 else r + 1
  }

  lemma SpliceOne(s: seq<nat>, idx: nat)
    requires idx < |s| && NoDuplicates(s)
    ensures NoDuplicates(s[..idx] + s[idx + 1..])
    ensures SetOf(s[..idx] + s[idx + 1..]) == SetOf(s) - {s[idx]}
  {
    var t := s[..idx] + s[idx + 1..];
    forall i | i in s && i != s[idx]
      ensures i in t
    {
      var k :| 0 <= k < |s| && s[k] == i;
      assert t[if k < idx then k else k - 1] == i;
    }
  }

  lemma AppendFresh(s: seq<nat>, x: nat)
    requires NoDuplicates(s) && x !in s
    ensures NoDuplicates(s + [x])
    ensures SetOf(s + [x]) == SetOf(s) + {x}
  {
  }

  /**
   * The closure loop. remaining holds positions of disclosures; a position stands for
   * the identity of the decoded record. It runs one pass more than the longest chain it needs, so
   * at most one more than there are disclosures.
   */
  method CloseOver(payload: Json, ds: seq<Disclosure>) returns (remaining: seq<nat>, ghost passes: nat)
    ensures NoDuplicates(remaining)
    ensures SetOf(remaining) == UpTo(|ds|) - AnchoredSet(AnchorsOf(payload), View(ds))
    ensures passes <= |ds| + 1 && StopsAfter(AnchorsOf(payload), View(ds), passes)
  {
    ghost var seed, nodes := AnchorsOf(payload), View(ds);
    var anchors;
    anchors, remaining := Seed(payload, ds, seed, nodes);
    passes := 0;
    var progress := true;
    ghost var size: nat := 0;
    while progress
      invariant fresh(anchors) && PassState(anchors, remaining, seed, nodes, passes, size, progress)
      invariant passes <= size + (if progress then 0 else 1) && size <= |ds|
      decreases progress, |ds| - size
    {
      progress, remaining, size := OnePass(ds, remaining, anchors, seed, nodes, passes, size);
      passes := passes + 1;
    }
  }

  /** The anchor sets filled from the payload, and every disclosure pending. */
  method Seed(payload: Json, ds: seq<Disclosure>, ghost seed: set<Anchor>, ghost nodes: seq<Node>)
    returns (anchors: AnchorCollector, remaining: seq<nat>)
    requires seed == AnchorsOf(payload) && |nodes| == |ds|
    ensures fresh(anchors) && PassState(anchors, remaining, seed, nodes, 0, 0, true)
  {
    anchors := new AnchorCollector();
    anchors.Visit(payload);
    remaining := AllPositions(ds);
    NothingAnchoredYet(seed, nodes);
  }

  lemma NothingAnchoredYet(seed: set<Anchor>, nodes: seq<Node>)
    ensures Level(seed, nodes, 0) == {} && Available(seed, nodes, {}) == seed && UpTo(|nodes|) - {} == UpTo(|nodes|)
  {
  }

  /**
   * Before pass k + 1: the sets hold what level k gives and everything outside level k is pending;
   * after the last pass exactly the unanchored disclosures are pending.
   */
  ghost predicate PassState(anchors: AnchorCollector, remaining: seq<nat>, seed: set<Anchor>, nodes: seq<Node>,
                            k: nat, size: nat, progress: bool)
    reads anchors
  {
    && NoDuplicates(remaining) && size == |Level(seed, nodes, k)|
    && (progress && k > 0 ==> Level(seed, nodes, k - 1) != Level(seed, nodes, k))
    && if progress
       then anchors.Found() == Available(seed, nodes, Level(seed, nodes, k)) &&
            SetOf(remaining) == UpTo(|nodes|) - Level(seed, nodes, k)
       else SetOf(remaining) == UpTo(|nodes|) - AnchoredSet(seed, nodes) && StopsAfter(seed, nodes, k)
  }

  /** One turn of the loop: pick what is supported now, feed the picked values back, drop the picked positions. */
  method OnePass(ds: seq<Disclosure>, pending: seq<nat>, anchors: AnchorCollector,
                 ghost seed: set<Anchor>, ghost nodes: seq<Node>, ghost k: nat, ghost size: nat)
    returns (progress: bool, remaining: seq<nat>, ghost size': nat)
    requires nodes == View(ds) && PassState(anchors, pending, seed, nodes, k, size, true)
    modifies anchors
    ensures PassState(anchors, remaining, seed, nodes, k + 1, size', progress)
    ensures size' <= |ds| && if progress then size < size' else size' == size
  {
    ghost var done := Level(seed, nodes, k);
    var anchored := PickAnchored(ds, pending, anchors, seed, nodes, done);
    PassProgress(seed, nodes, k, SetOf(anchored));
    size' := |Level(seed, nodes, k + 1)|;
    if |anchored| == 0 {
      return false, pending, size';
    }
    assert anchored[0] in SetOf(anchored);
    remaining := FeedBack(ds, pending, anchored, anchors, seed, nodes, done);
    progress := true;
  }

  method AllPositions(ds: seq<Disclosure>) returns (all: seq<nat>)
    ensures NoDuplicates(all) && SetOf(all) == UpTo(|ds|)
  {
    all := [];
    for i := 0 to |ds|
      invariant NoDuplicates(all) && SetOf(all) == UpTo(i)
    {
      FreshPosition(all, i);
      all := all + [i];
    }
  }

  lemma FreshPosition(all: seq<nat>, i: nat)
    requires NoDuplicates(all) && SetOf(all) == UpTo(i)
    ensures NoDuplicates(all + [i]) && SetOf(all + [i]) == UpTo(i + 1)
  {
    assert i !in SetOf(all);
    AppendFresh(all, i);
  }

  method PickAnchored(ds: seq<Disclosure>, remaining: seq<nat>, anchors: AnchorCollector,
                      ghost seed: set<Anchor>, ghost nodes: seq<Node>, ghost done: set<nat>)
    returns (anchored: seq<nat>)
    requires nodes == View(ds)
    requires anchors.Found() == Available(seed, nodes, done)
    requires NoDuplicates(remaining) && SetOf(remaining) <= UpTo(|ds|)
    ensures NoDuplicates(anchored)
    ensures SetOf(anchored) == SupportedAmong(SetOf(remaining), seed, nodes, done)
  {
    anchored := [];
    for k := 0 to |remaining|
      invariant NoDuplicates(anchored)
      invariant SetOf(anchored) == SupportedAmong(SetOf(remaining[..k]), seed, nodes, done)
    {
      var i := remaining[k];
      SetOfStep(remaining, k);
      OneMoreCandidate(SetOf(remaining[..k]), i, seed, nodes, done);
      var valid := Holds(anchors, ds[i]);
      assert valid <==> Supported(seed, nodes, done, i);
      if valid {
        AppendFresh(anchored, i);
        anchored := anchored + [i];
      }
    }
    assert remaining[..|remaining|] == remaining;
  }

  predicate Holds(anchors: AnchorCollector, d: Disclosure)
    reads anchors
    ensures Holds(anchors, d) <==> d.Needs() in anchors.Found()
  {
    if d.isProperty then d.hash in anchors.kvHashes else d.hash in anchors.arrayElemHashes
  }

  method FeedBack(ds: seq<Disclosure>, pending: seq<nat>, anchored: seq<nat>, anchors: AnchorCollector,
                  ghost seed: set<Anchor>, ghost nodes: seq<Node>, ghost done: set<nat>)
    returns (remaining: seq<nat>)
    requires nodes == View(ds)
    requires anchors.Found() == Available(seed, nodes, done)
    requires NoDuplicates(pending) && SetOf(anchored) <= UpTo(|ds|)
    modifies anchors
    ensures anchors.Found() == Available(seed, nodes, done + SetOf(anchored))
    ensures NoDuplicates(remaining) && SetOf(remaining) == SetOf(pending) - SetOf(anchored)
  {
    remaining := pending;
    ghost var fed := done;
    for k := 0 to |anchored|
      invariant fed == done + SetOf(anchored[..k])
      invariant anchors.Found() == Available(seed, nodes, fed)
      invariant NoDuplicates(remaining) && SetOf(remaining) == SetOf(pending) - SetOf(anchored[..k])
    {
      var i := anchored[k];
      SetOfStep(anchored, k);
      FeedOne(seed, nodes, fed, i);
      anchors.Visit(ds[i].value);
      fed := fed + {i};
      remaining := Without(remaining, i);
    }
    assert anchored[..|anchored|] == anchored;
  }

  /** indexOf and splice: drops one position when it is present. */
  method Without(s: seq<nat>, x: nat) returns (t: seq<nat>)
    requires NoDuplicates(s)
    ensures NoDuplicates(t) && SetOf(t) == SetOf(s) - {x}
  {
    t := s;
    var idx := IndexOf(s, x);
    if idx >= 0 {
      SpliceOne(s, idx);
      t := s[..idx] + s[idx + 1..];
    }
  }

  // ----- The whole step -----

  function Decode(raw: string, parse: string -> Option<Json>, hash: string -> string): Option<Disclosure> {
    match parse(raw)
    case Some(Arr(items)) =>
      if |items| == 3 then Some(Disclosure(hash(raw), true, items[2]))
      else if |items| == 2 then Some(Disclosure(hash(raw), false, items[1]))
      else None
    case _ => None
  }

  ghost predicate AllDecode(raws: seq<string>, parse: string -> Option<Json>, hash: string -> string) {
    forall i :: 0 <= i < |raws| ==> Decode(raws[i], parse, hash).Some?
  }

  ghost function Decoded(raws: seq<string>, parse: string -> Option<Json>,
                         hash: string -> string): (ds: seq<Disclosure>)
    requires AllDecode(raws, parse, hash)
  {
    seq(|raws|, i requires 0 <= i < |raws| => Decode(raws[i], parse, hash).value)
  }

  /** Every presented string decodes, and every disclosure hangs on a chain from the payload. */
  ghost predicate Accepts(payload: Json, raws: seq<string>, parse: string -> Option<Json>, hash: string -> string) {
    AllDecode(raws, parse, hash) && AllAnchored(AnchorsOf(payload), View(Decoded(raws, parse, hash)))
  }

  // ----- The same, said of the strings alone -----

  /** raw is a disclosure of the value v: [salt, name, v], or [salt, v] when it is for an array element. */
  ghost predicate Discloses(raw: string, forElement: bool, v: Json, parse: string -> Option<Json>) {
    if forElement then exists salt :: parse(raw) == Some(Arr([salt, v]))
    else exists salt, name :: parse(raw) == Some(Arr([salt, name, v]))
  }

  ghost predicate IsDisclosure(raw: string, parse: string -> Option<Json>) {
    exists forElement, v :: Discloses(raw, forElement, v, parse)
  }

  /** At some address, root spells out the hash of raw, as the kind of anchor that raw needs. */
  ghost predicate CommitsTo(root: Json, raw: string, parse: string -> Option<Json>, hash: string -> string) {
    exists forElement, v :: Discloses(raw, forElement, v, parse) &&
      Occurs(root, if forElement then Element(hash(raw)) else Property(hash(raw)))
  }

  /** The value that prev discloses commits to raw. */
  ghost predicate Carries(prev: string, raw: string, parse: string -> Option<Json>, hash: string -> string) {
    exists forElement, v :: Discloses(prev, forElement, v, parse) && CommitsTo(v, raw, parse, hash)
  }

  /** The payload commits to the first string of the chain, and each one's value to the next. */
  ghost predicate StringChain(payload: Json, raws: seq<string>, chain: seq<string>,
                              parse: string -> Option<Json>, hash: string -> string) {
    && chain != [] && (forall raw :: raw in chain ==> raw in raws)
    && CommitsTo(payload, chain[0], parse, hash)
    && forall k :: 0 < k < |chain| ==> Carries(chain[k - 1], chain[k], parse, hash)
  }

  ghost predicate HangsOnPayload(payload: Json, raws: seq<string>, raw: string,
                                 parse: string -> Option<Json>, hash: string -> string) {
    exists chain :: StringChain(payload, raws, chain, parse, hash) && chain[|chain| - 1] == raw
  }

  /** Every string is a disclosure and ends a chain of commitments from the payload. */
  ghost predicate AllHang(payload: Json, raws: seq<string>, parse: string -> Option<Json>, hash: string -> string) {
    && (forall raw :: raw in raws ==> IsDisclosure(raw, parse))
    && (forall raw :: raw in raws ==> HangsOnPayload(payload, raws, raw, parse, hash))
  }

  lemma DecodesToValue(raw: string, parse: string -> Option<Json>, hash: string -> string)
    ensures Decode(raw, parse, hash).Some? <==> IsDisclosure(raw, parse)
    ensures forall forElement, v :: Discloses(raw, forElement, v, parse) <==>
      Decode(raw, parse, hash) == Some(Disclosure(hash(raw), !forElement, v))
  {
    var parsed := parse(raw);
    if parsed.Some? && parsed.value.Arr? {
      var items := parsed.value.items;
      if |items| == 3 {
        assert items == [items[0], items[1], items[2]];
        assert Discloses(raw, false, items[2], parse);
      } else if |items| == 2 {
        assert items == [items[0], items[1]];
        assert Discloses(raw, true, items[1], parse);
      }
    }
  }

  lemma CommitsToNeeds(root: Json, raw: string, d: Disclosure, parse: string -> Option<Json>, hash: string -> string)
    requires Decode(raw, parse, hash) == Some(d)
    ensures CommitsTo(root, raw, parse, hash) <==> d.Needs() in AnchorsOf(root)
  {
    DecodesToValue(raw, parse, hash);
    assert d.hash == hash(raw);
    assert Discloses(raw, !d.isProperty, d.value, parse);
    WalkFindsExactlyTheOccurrences(root, d.Needs());
  }

  lemma CarriesNeeds(prev: string, p: Disclosure, raw: string, d: Disclosure,
                     parse: string -> Option<Json>, hash: string -> string)
    requires Decode(prev, parse, hash) == Some(p) && Decode(raw, parse, hash) == Some(d)
    ensures Carries(prev, raw, parse, hash) <==> d.Needs() in AnchorsOf(p.value)
  {
    DecodesToValue(prev, parse, hash);
    assert Discloses(prev, !p.isProperty, p.value, parse);
    CommitsToNeeds(p.value, raw, d, parse, hash);
  }

  /** What the nodes say of two positions is what the strings say. */
  lemma NodesCarry(raws: seq<string>, a: nat, b: nat, parse: string -> Option<Json>, hash: string -> string)
    requires AllDecode(raws, parse, hash) && a < |raws| && b < |raws|
    ensures var nodes := View(Decoded(raws, parse, hash));
      nodes[b].needs in nodes[a].gives <==> Carries(raws[a], raws[b], parse, hash)
  {
    var ds := Decoded(raws, parse, hash);
    CarriesNeeds(raws[a], ds[a], raws[b], ds[b], parse, hash);
  }

  lemma PayloadCarries(payload: Json, raws: seq<string>, b: nat, parse: string -> Option<Json>, hash: string -> string)
    requires AllDecode(raws, parse, hash) && b < |raws|
    ensures View(Decoded(raws, parse, hash))[b].needs in AnchorsOf(payload) <==>
      CommitsTo(payload, raws[b], parse, hash)
  {
    CommitsToNeeds(payload, raws[b], Decoded(raws, parse, hash)[b], parse, hash);
  }

  /** A chain of positions is a chain of the strings at these positions. */
  lemma {:induction false} ChainOfStrings(payload: Json, raws: seq<string>, chain: seq<nat>,
                                          parse: string -> Option<Json>, hash: string -> string)
    returns (strings: seq<string>)
    requires AllDecode(raws, parse, hash)
    requires IsChain(AnchorsOf(payload), View(Decoded(raws, parse, hash)), chain)
    ensures StringChain(payload, raws, strings, parse, hash)
    ensures strings[|strings| - 1] == raws[chain[|chain| - 1]]
  {
    var n := |chain| - 1;
    if n == 0 {
      PayloadCarries(payload, raws, chain[0], parse, hash);
      strings := [raws[chain[0]]];
    } else {
      var before := ChainOfStrings(payload, raws, chain[..n], parse, hash);
      NodesCarry(raws, chain[n - 1], chain[n], parse, hash);
      strings := before + [raws[chain[n]]];
    }
  }

  /** A chain of strings is a chain of positions, ending at any position of its last string. */
  lemma {:induction false} ChainOfPositions(payload: Json, raws: seq<string>, strings: seq<string>, last: nat,
                                            parse: string -> Option<Json>, hash: string -> string)
    returns (chain: seq<nat>)
    requires AllDecode(raws, parse, hash) && StringChain(payload, raws, strings, parse, hash)
    requires last < |raws| && raws[last] == strings[|strings| - 1]
    ensures IsChain(AnchorsOf(payload), View(Decoded(raws, parse, hash)), chain) && chain[|chain| - 1] == last
  {
    var n := |strings| - 1;
    if n == 0 {
      PayloadCarries(payload, raws, last, parse, hash);
      chain := [last];
    } else {
      var init := strings[..n];
      assert init[n - 1] in strings;
      var p: nat :| p < |raws| && raws[p] == strings[n - 1];
      assert StringChain(payload, raws, init, parse, hash);
      var before := ChainOfPositions(payload, raws, init, p, parse, hash);
      NodesCarry(raws, p, last, parse, hash);
      chain := before + [last];
    }
  }

  /**
   * End to end, of the presented strings alone: a presentation is accepted exactly when every string is an array
   * of two or three elements and ends a chain of strings, the first of which the payload commits to, and each
   * later one the last array element of its predecessor.
   */
  lemma AcceptsExactly(payload: Json, raws: seq<string>, parse: string -> Option<Json>, hash: string -> string)
    ensures Accepts(payload, raws, parse, hash) <==> AllHang(payload, raws, parse, hash)
  {
    DisclosuresDecode(raws, parse, hash);
    if AllDecode(raws, parse, hash) {
      var seed, nodes := AnchorsOf(payload), View(Decoded(raws, parse, hash));
      forall i: nat | i < |raws|
        ensures Anchored(seed, nodes, i) <==> HangsOnPayload(payload, raws, raws[i], parse, hash)
      {
        if Anchored(seed, nodes, i) {
          var chain :| IsChain(seed, nodes, chain) && chain[|chain| - 1] == i;
          var strings := ChainOfStrings(payload, raws, chain, parse, hash);
        }
        if HangsOnPayload(payload, raws, raws[i], parse, hash) {
          var strings :| StringChain(payload, raws, strings, parse, hash) && strings[|strings| - 1] == raws[i];
          var _ := ChainOfPositions(payload, raws, strings, i, parse, hash);
        }
      }
    }
  }

  /**
   * Step 7 of the parser. parse stands for base64 and JSON decoding of a disclosure and
   * hash for its SHA-256 digest in base64url.
   */
  method VerifyDisclosures(payload: Json, raws: seq<string>, parse: string -> Option<Json>, hash: string -> string)
    returns (verdict: Verdict, ghost passes: nat)
    ensures verdict == Accepted <==> AllHang(payload, raws, parse, hash)
    ensures verdict == HashMismatch <==>
      (forall raw :: raw in raws ==> IsDisclosure(raw, parse)) && !AllHang(payload, raws, parse, hash)
    ensures verdict == NotJson <==>
      exists i :: 0 <= i < |raws| && parse(raws[i]).None? && forall k :: 0 <= k < i ==> IsDisclosure(raws[k], parse)
    ensures passes <= |raws| + 1
  {
    passes := 0;
    DisclosuresDecode(raws, parse, hash);
    AcceptsExactly(payload, raws, parse, hash);
    if |raws| == 0 {
      return Accepted, passes;
    }
    var ds;
    verdict, ds := DecodeAll(raws, parse, hash);
    if verdict == Accepted {
      var remaining;
      remaining, passes := CloseOver(payload, ds);
      NothingRemains(AnchorsOf(payload), View(ds), remaining);
      if |remaining| > 0 {
        verdict := HashMismatch;
      }
    }
  }

  lemma DisclosuresDecode(raws: seq<string>, parse: string -> Option<Json>, hash: string -> string)
    ensures AllDecode(raws, parse, hash) <==> forall raw :: raw in raws ==> IsDisclosure(raw, parse)
    ensures forall i :: 0 <= i <= |raws| ==>
      (AllDecode(raws[..i], parse, hash) <==> forall k :: 0 <= k < i ==> IsDisclosure(raws[k], parse))
  {
    forall raw
      ensures Decode(raw, parse, hash).Some? <==> IsDisclosure(raw, parse)
    {
      DecodesToValue(raw, parse, hash);
    }
  }

  lemma NothingRemains(seed: set<Anchor>, nodes: seq<Node>, remaining: seq<nat>)
    requires SetOf(remaining) == UpTo(|nodes|) - AnchoredSet(seed, nodes)
    ensures AllAnchored(seed, nodes) <==> |remaining| == 0
  {
    if |remaining| > 0 {
      assert remaining[0] in SetOf(remaining);
    } else {
      assert SetOf(remaining) == {};
      forall i: nat | i < |nodes|
        ensures Anchored(seed, nodes, i)
      {
        assert i in UpTo(|nodes|);
      }
    }
  }

  method DecodeAll(raws: seq<string>, parse: string -> Option<Json>, hash: string -> string)
    returns (verdict: Verdict, ds: seq<Disclosure>)
    ensures verdict != HashMismatch
    ensures verdict == Accepted ==> AllDecode(raws, parse, hash) && ds == Decoded(raws, parse, hash)
    ensures verdict != Accepted ==> !AllDecode(raws, parse, hash)
    ensures verdict == Accepted ==> |ds| == |raws| && forall i :: 0 <= i < |raws| ==>
      ds[i].hash == hash(raws[i]) && Discloses(raws[i], !ds[i].isProperty, ds[i].value, parse)
    ensures verdict == NotJson <==>
      exists i :: 0 <= i < |raws| && AllDecode(raws[..i], parse, hash) && parse(raws[i]).None?
  {
    ds := [];
    for i := 0 to |raws|
      invariant |ds| == i
      invariant forall k :: 0 <= k < i ==> Decode(raws[k], parse, hash) == Some(ds[k])
      invariant forall k :: 0 <= k < i ==>
        ds[k].hash == hash(raws[k]) && Discloses(raws[k], !ds[k].isProperty, ds[k].value, parse)
    {
      var parsed := parse(raws[i]);
      if parsed.None? {
        assert AllDecode(raws[..i], parse, hash);
        return NotJson, ds;
      }
      if !parsed.value.Arr? || (|parsed.value.items| != 2 && |parsed.value.items| != 3) {
        NoEarlierNotJson(raws, i, parse, hash);
        return WrongArity, ds;
      }
      var items := parsed.value.items;
      DecodesToValue(raws[i], parse, hash);
      ds := ds + [Disclosure(hash(raws[i]), |items| == 3, if |items| == 3 then items[2] else items[1])];
    }
    verdict := Accepted;
  }

  lemma NoEarlierNotJson(raws: seq<string>, i: nat, parse: string -> Option<Json>, hash: string -> string)
    requires i < |raws| && parse(raws[i]).Some? && Decode(raws[i], parse, hash).None?
    requires forall k :: 0 <= k < i ==> Decode(raws[k], parse, hash).Some?
    ensures !exists k :: 0 <= k < |raws| && AllDecode(raws[..k], parse, hash) && parse(raws[k]).None?
  {
    forall k | i < k < |raws|
      ensures !AllDecode(raws[..k], parse, hash)
    {
      assert raws[..k][i] == raws[i];
    }
  }

  /** Presenting the same disclosure strings in another order, or repeating some, gives the same verdict. */
  lemma AcceptanceIgnoresOrder(payload: Json, raws: seq<string>, raws': seq<string>,
                               parse: string -> Option<Json>, hash: string -> string)
    requires forall r :: r in raws <==> r in raws'
    ensures Accepts(payload, raws, parse, hash) <==> Accepts(payload, raws', parse, hash)
  {
    if AllDecode(raws, parse, hash) || AllDecode(raws', parse, hash) {
      SameStringsDecodeAlike(raws, raws', parse, hash);
      SameStringsDecodeAlike(raws', raws, parse, hash);
      VerdictDependsOnTheSetOnly(AnchorsOf(payload), View(Decoded(raws, parse, hash)),
        View(Decoded(raws', parse, hash)));
    }
  }

  lemma SameStringsDecodeAlike(raws: seq<string>, raws': seq<string>, parse: string -> Option<Json>,
                               hash: string -> string)
    requires forall r :: r in raws <==> r in raws'
    ensures AllDecode(raws, parse, hash) ==> AllDecode(raws', parse, hash)
    ensures AllDecode(raws, parse, hash) && AllDecode(raws', parse, hash) ==>
      forall n :: n in View(Decoded(raws, parse, hash)) ==> n in View(Decoded(raws', parse, hash))
  {
    if AllDecode(raws, parse, hash) {
      forall i | 0 <= i < |raws'|
        ensures Decode(raws'[i], parse, hash).Some?
      {
        assert raws'[i] in raws;
      }
      var view, view' := View(Decoded(raws, parse, hash)), View(Decoded(raws', parse, hash));
      forall n | n in view
        ensures n in view'
      {
        var i :| 0 <= i < |view| && view[i] == n;
        assert raws[i] in raws';
        var k :| 0 <= k < |raws'| && raws'[k] == raws[i];
        assert view'[k] == n;
      }
    }
  }
}
