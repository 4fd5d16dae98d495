/**
 * Closure of commitments: which disclosures are reachable from the anchors of the
 * issuer payload when every reached disclosure contributes the anchors of its value.
 */
module CommitmentClosure {
  import opened Sets
  import opened SdJwtAnchors

  /** A disclosure as the closure sees it: the anchor it needs and the anchors its value gives. */
  datatype Node = Node(needs: Anchor, gives: set<Anchor>)

  // ----- The declarative reading: chains of support -----

  /** Every anchor given by the seed or by a disclosure of base. */
  ghost function Available(seed: set<Anchor>, ds: seq<Node>, base: set<nat>): set<Anchor> {
    seed + set j, a | j in base && j < |ds| && a in ds[j].gives :: a
  }

  ghost predicate Supported(seed: set<Anchor>, ds: seq<Node>, base: set<nat>, i: nat) {
    i < |ds| && ds[i].needs in Available(seed, ds, base)
  }

  /** chain starts at a disclosure the seed commits to; each later one is committed to by its predecessor. */
  ghost predicate IsChain(seed: set<Anchor>, ds: seq<Node>, chain: seq<nat>) {
    && chain != []
    && (forall k :: 0 <= k < |chain| ==> chain[k] < |ds|)
    && ds[chain[0]].needs in seed
    && (forall k :: 0 < k < |chain| ==> ds[chain[k]].needs in ds[chain[k - 1]].gives)
  }

  ghost predicate Anchored(seed: set<Anchor>, ds: seq<Node>, i: nat) {
    exists chain :: IsChain(seed, ds, chain) && chain[|chain| - 1] == i
  }

  ghost predicate AllAnchored(seed: set<Anchor>, ds: seq<Node>) {
    forall i :: 0 <= i < |ds| ==> Anchored(seed, ds, i)
  }

  // ----- The passes of the loop -----

  ghost function UpTo(n: nat): (s: set<nat>)
    ensures forall i: nat :: i in s <==> i < n
    ensures |s| == n
  {
    if n == 0 then {} else UpTo(n - 1) + {n - 1}
  }

  ghost function SupportedAmong(candidates: set<nat>, seed: set<Anchor>, ds: seq<Node>, base: set<nat>): set<nat> {
    set i | i in candidates && Supported(seed, ds, base, i)
  }

  lemma OneMoreCandidate(candidates: set<nat>, i: nat, seed: set<Anchor>, ds: seq<Node>, base: set<nat>)
    ensures SupportedAmong(candidates + {i}, seed, ds, base)
         == SupportedAmong(candidates, seed, ds, base) + if Supported(seed, ds, base, i) then {i} else {}
  {
  }

  /** The disclosures anchored after the given number of passes. */
  ghost function Level(seed: set<Anchor>, ds: seq<Node>, passes: nat): set<nat> {
    if passes == 0 then {}
    else SupportedAmong(UpTo(|ds|), seed, ds, Level(seed, ds, passes - 1))
  }

  lemma {:induction false} LevelsGrow(seed: set<Anchor>, ds: seq<Node>, k: nat)
    ensures Level(seed, ds, k) <= Level(seed, ds, k + 1)
  {
    if k > 0 { LevelsGrow(seed, ds, k - 1); }
  }

  /** A pass only has to look at the disclosures that are still pending. */
  lemma PassOverPending(seed: set<Anchor>, ds: seq<Node>, k: nat)
    ensures Level(seed, ds, k + 1) ==
            Level(seed, ds, k) + SupportedAmong(UpTo(|ds|) - Level(seed, ds, k), seed, ds, Level(seed, ds, k))
  {
    LevelsGrow(seed, ds, k);
  }

  lemma LevelInRange(seed: set<Anchor>, ds: seq<Node>, k: nat)
    ensures forall i :: i in Level(seed, ds, k) ==> i < |ds|
  {
  }

  /** Pass k anchors exactly the disclosures that have a chain of at most k links. */
  lemma {:induction false} LevelIsChainLength(seed: set<Anchor>, ds: seq<Node>, k: nat, i: nat)
    requires i < |ds|
    ensures i in Level(seed, ds, k) <==>
            exists chain :: IsChain(seed, ds, chain) && chain[|chain| - 1] == i && |chain| <= k
  {
    if i in Level(seed, ds, k) {
      var chain := ChainWithin(seed, ds, k, i);
    }
    forall chain | IsChain(seed, ds, chain) && chain[|chain| - 1] == i && |chain| <= k
      ensures i in Level(seed, ds, k)
    {
      ChainReachesLevel(seed, ds, chain, k);
    }
  }

  lemma {:induction false} ChainWithin(seed: set<Anchor>, ds: seq<Node>, k: nat, i: nat) returns (chain: seq<nat>)
    requires i in Level(seed, ds, k)
    ensures IsChain(seed, ds, chain) && chain[|chain| - 1] == i && |chain| <= k
  {
    if ds[i].needs in seed {
      chain := [i];
    } else {
      var j: nat :| j in Level(seed, ds, k - 1) && j < |ds| && ds[i].needs in ds[j].gives;
      var prefix := ChainWithin(seed, ds, k - 1, j);
      chain := prefix + [i];
    }
  }

  lemma {:induction false} ChainReachesLevel(seed: set<Anchor>, ds: seq<Node>, chain: seq<nat>, k: nat)
    requires IsChain(seed, ds, chain) && |chain| <= k
    ensures chain[|chain| - 1] in Level(seed, ds, k)
  {
    var n := |chain| - 1;
    if n > 0 {
      var prefix := chain[..n];
      ChainReachesLevel(seed, ds, prefix, k - 1);
      assert prefix[|prefix| - 1] == chain[n - 1];
    }
  }

  /** Once a pass adds nothing, the level is the whole set of anchored disclosures. */
  lemma FixpointIsAnchored(seed: set<Anchor>, ds: seq<Node>, k: nat)
    requires Level(seed, ds, k + 1) <= Level(seed, ds, k)
    ensures forall i :: 0 <= i < |ds| ==> (i in Level(seed, ds, k) <==> Anchored(seed, ds, i))
  {
    forall i | 0 <= i < |ds|
      ensures i in Level(seed, ds, k) <==> Anchored(seed, ds, i)
    {
      LevelIsChainLength(seed, ds, k, i);
      if Anchored(seed, ds, i) {
        var chain :| IsChain(seed, ds, chain) && chain[|chain| - 1] == i;
        ChainStaysInside(seed, ds, chain, Level(seed, ds, k));
      }
    }
  }

  /** S contains whatever the seed or a member of S commits to. */
  ghost predicate Closed(seed: set<Anchor>, ds: seq<Node>, S: set<nat>) {
    forall i: nat :: Supported(seed, ds, S, i) ==> i in S
  }

  lemma {:induction false} ChainStaysInside(seed: set<Anchor>, ds: seq<Node>, chain: seq<nat>, S: set<nat>)
    requires IsChain(seed, ds, chain)
    requires Closed(seed, ds, S)
    ensures chain[|chain| - 1] in S
  {
    var n := |chain| - 1;
    if n > 0 {
      var prefix := chain[..n];
      ChainStaysInside(seed, ds, prefix, S);
      assert prefix[|prefix| - 1] == chain[n - 1];
    }
    assert Supported(seed, ds, S, chain[n]);
  }

  ghost function AnchoredSet(seed: set<Anchor>, ds: seq<Node>): set<nat> {
    set i | i in UpTo(|ds|) && Anchored(seed, ds, i)
  }

  /** The anchored disclosures are the least set that is closed under commitment. */
  lemma AnchoredIsLeastClosed(seed: set<Anchor>, ds: seq<Node>, i: nat)
    requires i < |ds|
    ensures Closed(seed, ds, AnchoredSet(seed, ds))
    ensures Anchored(seed, ds, i) <==> forall S {:trigger Closed(seed, ds, S)} :: Closed(seed, ds, S) ==> i in S
  {
    forall j: nat | Supported(seed, ds, AnchoredSet(seed, ds), j)
      ensures j in AnchoredSet(seed, ds)
    {
      if ds[j].needs in seed {
        assert IsChain(seed, ds, [j]);
      } else {
        var p: nat :| p in AnchoredSet(seed, ds) && p < |ds| && ds[j].needs in ds[p].gives;
        var prefix :| IsChain(seed, ds, prefix) && prefix[|prefix| - 1] == p;
        var chain := prefix + [j];
        assert forall k :: 0 <= k < |prefix| ==> chain[k] == prefix[k];
        assert IsChain(seed, ds, chain) && chain[|chain| - 1] == j;
      }
    }
    if Anchored(seed, ds, i) {
      forall S | Closed(seed, ds, S)
        ensures i in S
      {
        var chain :| IsChain(seed, ds, chain) && chain[|chain| - 1] == i;
        ChainStaysInside(seed, ds, chain, S);
      }
    } else {
      assert i !in AnchoredSet(seed, ds);
    }
  }

  /** What a pass that anchors `picked` does to the loop's state, and what it means to pick nothing. */
  lemma PassProgress(seed: set<Anchor>, ds: seq<Node>, k: nat, picked: set<nat>)
    requires picked == SupportedAmong(UpTo(|ds|) - Level(seed, ds, k), seed, ds, Level(seed, ds, k))
    ensures Level(seed, ds, k) + picked == Level(seed, ds, k + 1) <= UpTo(|ds|)
    ensures UpTo(|ds|) - Level(seed, ds, k) - picked == UpTo(|ds|) - Level(seed, ds, k + 1)
    ensures |Level(seed, ds, k + 1)| <= |ds|
    ensures picked != {} ==> |Level(seed, ds, k)| < |Level(seed, ds, k + 1)|
    ensures picked == {} ==> Level(seed, ds, k) == AnchoredSet(seed, ds)
  {
    PassOverPending(seed, ds, k);
    LevelInRange(seed, ds, k + 1);
    GrowingLevel(Level(seed, ds, k), picked, Level(seed, ds, k + 1), UpTo(|ds|));
    if picked == {} {
      FixpointIsAnchoredSet(seed, ds, k);
    }
  }

  lemma GrowingLevel(now: set<nat>, picked: set<nat>, next: set<nat>, all: set<nat>)
    requires next == now + picked && now !! picked && next <= all
    ensures |next| <= |all| && |next| == |now| + |picked|
    ensures all - now - picked == all - next
  {
    SubsetSize(next, all);
  }

  lemma FixpointIsAnchoredSet(seed: set<Anchor>, ds: seq<Node>, k: nat)
    requires Level(seed, ds, k + 1) == Level(seed, ds, k)
    ensures Level(seed, ds, k) == AnchoredSet(seed, ds)
  {
    FixpointIsAnchored(seed, ds, k);
    LevelInRange(seed, ds, k);
  }

  lemma FeedOne(seed: set<Anchor>, ds: seq<Node>, base: set<nat>, i: nat)
    requires i < |ds|
    ensures Available(seed, ds, base + {i}) == Available(seed, ds, base) + ds[i].gives
  {
  }

  /** The last of the passes found nothing new, and the one before it did. */
  ghost predicate StopsAfter(seed: set<Anchor>, ds: seq<Node>, passes: nat) {
    && passes > 0 && Level(seed, ds, passes - 1) == AnchoredSet(seed, ds)
    && (passes > 1 ==> Level(seed, ds, passes - 2) != AnchoredSet(seed, ds))
  }

  // ----- Consequences for the verdict -----

  /** Every member of group is needed by nobody outside it: neither the seed nor a non-member gives its anchor. */
  ghost predicate Floating(seed: set<Anchor>, ds: seq<Node>, group: set<nat>) {
    && group != {} && group <= UpTo(|ds|)
    && forall i :: i in group ==> !Supported(seed, ds, UpTo(|ds|) - group, i)
  }

  /** A presentation is refused exactly when it contains a floating group; a cycle of disclosures is one. */
  lemma RefusedIffFloatingGroup(seed: set<Anchor>, ds: seq<Node>)
    ensures !AllAnchored(seed, ds) <==> exists group :: Floating(seed, ds, group)
  {
    if !AllAnchored(seed, ds) {
      var i: nat :| i < |ds| && !Anchored(seed, ds, i);
      var group := UpTo(|ds|) - AnchoredSet(seed, ds);
      assert i in group;
      assert UpTo(|ds|) - group == AnchoredSet(seed, ds);
      AnchoredIsLeastClosed(seed, ds, i);
      assert Floating(seed, ds, group);
    }
    forall group | Floating(seed, ds, group)
      ensures !AllAnchored(seed, ds)
    {
      var i :| i in group;
      if Anchored(seed, ds, i) {
        var chain :| IsChain(seed, ds, chain) && chain[|chain| - 1] == i;
        ChainStaysInside(seed, ds, chain, UpTo(|ds|) - group);
      }
    }
  }

  /** A chain over one list of disclosures is a chain over any list that holds the same disclosures. */
  lemma {:induction false} ChainTransfers(seed: set<Anchor>, ds: seq<Node>, ds': seq<Node>, chain: seq<nat>, last: nat)
    returns (chain': seq<nat>)
    requires IsChain(seed, ds, chain)
    requires forall d :: d in ds ==> d in ds'
    requires last < |ds'| && ds'[last] == ds[chain[|chain| - 1]]
    ensures IsChain(seed, ds', chain') && chain'[|chain'| - 1] == last
  {
    var n := |chain| - 1;
    if n == 0 {
      chain' := [last];
    } else {
      var d := ds[chain[n - 1]];
      assert d in ds;
      var p: nat :| p < |ds'| && ds'[p] == d;
      var prefix := ChainTransfers(seed, ds, ds', chain[..n], p);
      chain' := prefix + [last];
    }
  }

  /** Neither the order of the disclosures nor how often one is repeated matters. */
  lemma VerdictDependsOnTheSetOnly(seed: set<Anchor>, ds: seq<Node>, ds': seq<Node>)
    requires forall d :: d in ds <==> d in ds'
    ensures AllAnchored(seed, ds) <==> AllAnchored(seed, ds')
  {
    if AllAnchored(seed, ds) { AnchoringTransfers(seed, ds, ds'); }
    if AllAnchored(seed, ds') { AnchoringTransfers(seed, ds', ds); }
  }

  lemma AnchoringTransfers(seed: set<Anchor>, ds: seq<Node>, ds': seq<Node>)
    requires forall d :: d in ds <==> d in ds'
    requires AllAnchored(seed, ds)
    ensures AllAnchored(seed, ds')
  {
    forall i: nat | i < |ds'|
      ensures Anchored(seed, ds', i)
    {
      assert ds'[i] in ds;
      var k: nat :| k < |ds| && ds[k] == ds'[i];
      assert Anchored(seed, ds, k);
      var chain :| IsChain(seed, ds, chain) && chain[|chain| - 1] == k;
      var _ := ChainTransfers(seed, ds, ds', chain, i);
    }
  }

  /** More payload anchors and more given anchors never turn acceptance into refusal. */
  lemma MoreAnchorsKeepAcceptance(seed: set<Anchor>, seed': set<Anchor>, ds: seq<Node>, ds': seq<Node>)
    requires seed <= seed' && |ds| == |ds'|
    requires forall i :: 0 <= i < |ds| ==> ds'[i].needs == ds[i].needs && ds[i].gives <= ds'[i].gives
    requires AllAnchored(seed, ds)
    ensures AllAnchored(seed', ds')
  {
    forall i: nat | i < |ds'|
      ensures Anchored(seed', ds', i)
    {
      assert Anchored(seed, ds, i);
      var chain :| IsChain(seed, ds, chain) && chain[|chain| - 1] == i;
      assert IsChain(seed', ds', chain);
    }
  }
}
