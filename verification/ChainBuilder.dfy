/**
 * Chain building: the climb from a leaf to one anchor through a pool of intermediates,
 * and the search over anchors. The climb keeps no set of visited certificates, so on some
 * pools it never returns; the model says on exactly which, and what is true when it returns.
 */
module ChainBuilder {
  import opened Options
  import opened ByteStrings
  import opened Certificates
  import opened IssuerWalk

  datatype Outcome = Built(chain: seq<Cert>) | Failed(reason: Reason) | Unfinished

  /** Position of the first certificate with that subject, or -1. */
  function FindSubject(pool: seq<Cert>, subject: string): (r: int)
    ensures -1 <= r < |pool|
    ensures r == -1 <==> forall i :: 0 <= i < |pool| ==> pool[i].subject != subject
    ensures r != -1 ==> pool[r].subject == subject && forall i :: 0 <= i < r ==> pool[i].subject != subject
  {
    if pool == [] then -1
    else if pool[0].subject == subject then 0
    else
      var r := FindSubject(pool[1..], subject);
      assert forall i :: 0 <= i < |pool[1..]| ==> pool[1..][i] == pool[i + 1];
      if r == -1 then -1 else r + 1
  }

  function Last(chain: seq<Cert>): Cert
    requires chain != []
  {
    chain[|chain| - 1]
  }

  /** The name constraint check that ends a climb. */
  ghost function Finish(pol: Policy, chain: seq<Cert>): Outcome
    requires chain != []
  {
    if NamesAllowed(pol, chain[0], chain[1..]) then Built(chain) else Failed(NameNotAllowed)
  }

  /** The climb from the last certificate of chain, giving up after fuel further issuers from the pool. */
  ghost function Climb(pol: Policy, anchor: Cert, pool: seq<Cert>, chain: seq<Cert>, fuel: nat): Outcome
    requires chain != []
    decreases fuel
  {
    var current := Last(chain);
    if current.subject == anchor.subject then
      if current.der != anchor.der then Failed(SignatureFailed) else Finish(pol, chain)
    else
      var i := FindSubject(pool, current.issuer);
      if i == -1 then
        if current.issuer != anchor.subject then Failed(SignatureFailed)
        else match CheckIssuer(pol, current, anchor, |chain| - 1)
          case Some(reason) => Failed(reason)
          case None => Finish(pol, chain + [anchor])
      else match CheckIssuer(pol, current, pool[i], |chain| - 1)
        case Some(reason) => Failed(reason)
        case None => if fuel == 0 then Unfinished else Climb(pol, anchor, pool, chain + [pool[i]], fuel - 1)
  }

  // ----- When the climb returns -----

  /** The pool position the climb moves to from c, path lengths aside. */
  function NextIssuer(pol: Policy, anchor: Cert, pool: seq<Cert>, c: Cert): (r: Option<nat>)
    ensures r.Some? ==> r.value < |pool|
  {
    if c.subject == anchor.subject then None
    else
      var i := FindSubject(pool, c.issuer);
      if i != -1 && Certifies(pol, pool[i], c) then Some(i) else None
  }

  function LimitOf(c: Cert): Option<nat> {
    if c.basic.Some? then c.basic.value.pathLength else None
  }

  /** The climb as a walk over pool positions: each issuer is determined by the certificate below it. */
  function ClimbWalk(pol: Policy, leaf: Cert, anchor: Cert, pool: seq<Cert>): (w: Walk)
    ensures InRange(w) && w.size == |pool|
  {
    Walk(|pool|, NextIssuer(pol, anchor, pool, leaf),
         (i: nat) => if i < |pool| then NextIssuer(pol, anchor, pool, pool[i]) else None,
         (i: nat) => if i < |pool| then LimitOf(pool[i]) else None)
  }

  function MaxLimit(pool: seq<Cert>): (m: nat)
    ensures forall i :: 0 <= i < |pool| && LimitOf(pool[i]).Some? ==> LimitOf(pool[i]).value <= m
  {
    if pool == [] then 0
    else
      var m := MaxLimit(pool[1..]);
      assert forall i :: 0 < i < |pool| ==> pool[i] == pool[1..][i - 1];
      if LimitOf(pool[0]).Some? && LimitOf(pool[0]).value > m then LimitOf(pool[0]).value else m
  }

  /** No climb that ends takes more issuers from the pool than this. */
  function Bound(pool: seq<Cert>): nat {
    MaxLimit(pool) + |pool| + 1
  }

  ghost predicate ClimbNeverEnds(pol: Policy, leaf: Cert, anchor: Cert, pool: seq<Cert>) {
    EntersUnlimitedCycle(ClimbWalk(pol, leaf, anchor, pool))
  }

  /** chain is the state of the climb after |chain| - 1 issuers. */
  ghost predicate Reached(w: Walk, leaf: Cert, pool: seq<Cert>, chain: seq<Cert>) {
    && chain != []
    && (|chain| == 1 ==> chain[0] == leaf)
    && (|chain| > 1 ==> At(w, |chain| - 2).Some? && At(w, |chain| - 2).value < |pool| &&
                        Last(chain) == pool[At(w, |chain| - 2).value])
  }

  /** One turn of the loop goes on exactly when the walk accepts its next stop. */
  lemma TurnIsStop(pol: Policy, leaf: Cert, anchor: Cert, pool: seq<Cert>, chain: seq<Cert>)
    requires Reached(ClimbWalk(pol, leaf, anchor, pool), leaf, pool, chain)
    ensures var w, d, i := ClimbWalk(pol, leaf, anchor, pool), |chain| - 1, FindSubject(pool, Last(chain).issuer);
      && At(w, d) == NextIssuer(pol, anchor, pool, Last(chain))
      && (Accepted(w, d) <==> Last(chain).subject != anchor.subject && i != -1 &&
                              CheckIssuer(pol, Last(chain), pool[i], d).None?)
      && (Accepted(w, d) ==> Reached(w, leaf, pool, chain + [pool[i]]))
  {
  }

  /** The stops from first on, and as many more, are accepted. */
  ghost predicate AllAccepted(w: Walk, first: nat, more: nat) {
    forall k: nat :: first <= k <= first + more ==> Accepted(w, k)
  }

  /** Fuel runs out exactly when the next fuel + 1 issuers are all accepted. */
  lemma {:induction false} UnfinishedMeansAccepted(pol: Policy, leaf: Cert, anchor: Cert, pool: seq<Cert>,
                                                   chain: seq<Cert>, fuel: nat)
    requires Reached(ClimbWalk(pol, leaf, anchor, pool), leaf, pool, chain)
    ensures Climb(pol, anchor, pool, chain, fuel).Unfinished? <==>
      AllAccepted(ClimbWalk(pol, leaf, anchor, pool), |chain| - 1, fuel)
    decreases fuel
  {
    var w, d := ClimbWalk(pol, leaf, anchor, pool), |chain| - 1;
    TurnIsStop(pol, leaf, anchor, pool, chain);
    AcceptedOneByOne(w, d, fuel);
    if Accepted(w, d) && fuel > 0 {
      var chain' := chain + [pool[FindSubject(pool, Last(chain).issuer)]];
      UnfinishedMeansAccepted(pol, leaf, anchor, pool, chain', fuel - 1);
    }
  }

  lemma AcceptedOneByOne(w: Walk, first: nat, more: nat)
    ensures AllAccepted(w, first, more) <==> Accepted(w, first) && (more > 0 ==> AllAccepted(w, first + 1, more - 1))
  {
  }

  /**
   * The exact condition for the climb to return. It never ends precisely when it enters a cycle
   * of accepted issuers without a path length limit; otherwise it ends within Bound(pool) issuers.
   */
  lemma ClimbReturnsExactly(pol: Policy, leaf: Cert, anchor: Cert, pool: seq<Cert>)
    ensures ClimbNeverEnds(pol, leaf, anchor, pool) <==> Climb(pol, anchor, pool, [leaf], Bound(pool)).Unfinished?
    ensures ClimbNeverEnds(pol, leaf, anchor, pool) <==>
      forall fuel: nat :: Climb(pol, anchor, pool, [leaf], fuel).Unfinished?
  {
    var w := ClimbWalk(pol, leaf, anchor, pool);
    EndlessExactly(w, MaxLimit(pool));
    UnfinishedMeansAccepted(pol, leaf, anchor, pool, [leaf], Bound(pool));
    if ClimbNeverEnds(pol, leaf, anchor, pool) {
      forall fuel: nat
        ensures Climb(pol, anchor, pool, [leaf], fuel).Unfinished?
      {
        UnfinishedMeansAccepted(pol, leaf, anchor, pool, [leaf], fuel);
      }
    }
  }

  predicate IssuedBy(pool: seq<Cert>, a: nat, b: nat) {
    a < |pool| && b < |pool| && pool[a].issuer == pool[b].subject
  }

  /** A cycle of pool positions, each issued by the next and the last by the first. */
  ghost predicate IssuerCycle(pool: seq<Cert>, cycle: seq<nat>) {
    && cycle != []
    && (forall k :: 0 <= k < |cycle| - 1 ==> IssuedBy(pool, cycle[k], cycle[k + 1]))
    && IssuedBy(pool, cycle[|cycle| - 1], cycle[0])
  }

  ghost predicate HasLimit(pool: seq<Cert>, cycle: seq<nat>) {
    exists k :: 0 <= k < |cycle| && cycle[k] < |pool| && LimitOf(pool[cycle[k]]).Some?
  }

  /** What the climb's walk says about the pool. */
  ghost predicate WalksPool(w: Walk, pool: seq<Cert>) {
    && w.size == |pool| && InRange(w)
    && (forall a: nat, b: nat :: a < |pool| && w.next(a) == Some(b) ==> IssuedBy(pool, a, b))
    && (forall a: nat :: a < |pool| ==> w.limit(a) == LimitOf(pool[a]))
  }

  lemma ClimbWalksPool(pol: Policy, leaf: Cert, anchor: Cert, pool: seq<Cert>)
    ensures WalksPool(ClimbWalk(pol, leaf, anchor, pool), pool)
  {
    var w := ClimbWalk(pol, leaf, anchor, pool);
    forall a: nat, b: nat | a < |pool| && w.next(a) == Some(b)
      ensures IssuedBy(pool, a, b)
    {
      assert NextIssuer(pol, anchor, pool, pool[a]) == Some(b);
    }
  }

  lemma UnlimitedStopsFormCycle(w: Walk, pool: seq<Cert>, i: nat, j: nat) returns (cycle: seq<nat>)
    requires WalksPool(w, pool) && CycleBetween(w, i, j)
    ensures IssuerCycle(pool, cycle) && !HasLimit(pool, cycle)
  {
    cycle := Stops(w, i, j - i);
    forall k | 0 <= k < |cycle| - 1
      ensures IssuedBy(pool, cycle[k], cycle[k + 1])
    {
      assert At(w, i + k) == Some(cycle[k]) && At(w, i + (k + 1)) == Some(cycle[k + 1]);
      assert w.next(cycle[k]) == Some(cycle[k + 1]);
    }
    var last := |cycle| - 1;
    assert At(w, i + 0) == Some(cycle[0]) && At(w, i + last) == Some(cycle[last]);
    assert w.next(cycle[last]) == Some(cycle[0]);
    forall k | 0 <= k < |cycle|
      ensures LimitOf(pool[cycle[k]]).None?
    {
      assert Unlimited(w, i + k) && At(w, i + k) == Some(cycle[k]);
    }
  }

  /** If every issuer cycle of the pool holds a path length limit - say, if there is no cycle - every climb ends. */
  lemma LimitedCyclesReturn(pol: Policy, leaf: Cert, anchor: Cert, pool: seq<Cert>)
    requires forall cycle :: IssuerCycle(pool, cycle) ==> HasLimit(pool, cycle)
    ensures !ClimbNeverEnds(pol, leaf, anchor, pool)
  {
    ClimbWalksPool(pol, leaf, anchor, pool);
    if ClimbNeverEnds(pol, leaf, anchor, pool) {
      var i: nat, j: nat :| CycleBetween(ClimbWalk(pol, leaf, anchor, pool), i, j);
      var cycle := UnlimitedStopsFormCycle(ClimbWalk(pol, leaf, anchor, pool), pool, i, j);
    }
  }

  // ----- The loop -----

  ghost function BuildOutcome(pol: Policy, leaf: Cert, anchor: Cert, pool: seq<Cert>): Outcome {
    if CheckPerCert(pol, leaf).Some? then Failed(CheckPerCert(pol, leaf).value)
    else if CheckLeafKeyUsage(leaf).Some? then Failed(CheckLeafKeyUsage(leaf).value)
    else Climb(pol, anchor, pool, [leaf], Bound(pool))
  }

  method FinishChain(pol: Policy, chain: seq<Cert>) returns (r: Outcome)
    requires chain != []
    ensures r == Finish(pol, chain)
  {
    var ok := CheckNameConstraints(pol, chain[0], chain[1..]);
    r := if ok then Built(chain) else Failed(NameNotAllowed);
  }

  /** tryBuild; its precondition is the exact condition under which the original returns. */
  method TryBuild(pol: Policy, leaf: Cert, anchor: Cert, intermediates: seq<Cert>) returns (r: Outcome)
    requires !BuildOutcome(pol, leaf, anchor, intermediates).Unfinished?
    ensures r == BuildOutcome(pol, leaf, anchor, intermediates)
  {
    var unusable := CheckPerCert(pol, leaf);
    if unusable.Some? {
      return Failed(unusable.value);
    }
    var misused := CheckLeafKeyUsage(leaf);
    if misused.Some? {
      return Failed(misused.value);
    }
    var chain := [leaf];
    var current := leaf;
    var nonLeafDepth := 0;
    ghost var fuel := Bound(intermediates);
    while current.subject != anchor.subject
      invariant |chain| == nonLeafDepth + 1 && chain[0] == leaf && Last(chain) == current
      invariant Climb(pol, anchor, intermediates, chain, fuel) == BuildOutcome(pol, leaf, anchor, intermediates)
      decreases fuel
    {
      var i := FindSubject(intermediates, current.issuer);
      if i == -1 {
        if current.issuer != anchor.subject {
          return Failed(SignatureFailed);
        }
        var rejected := CheckIssuer(pol, current, anchor, nonLeafDepth);
        if rejected.Some? {
          return Failed(rejected.value);
        }
        chain := chain + [anchor];
        r := FinishChain(pol, chain);
        return;
      }
      var issuer := intermediates[i];
      var rejected := CheckIssuer(pol, current, issuer, nonLeafDepth);
      if rejected.Some? {
        return Failed(rejected.value);
      }
      chain := chain + [issuer];
      current := issuer;
      nonLeafDepth := nonLeafDepth + 1;
      fuel := fuel - 1;
    }
    if current.der != anchor.der {
      return Failed(SignatureFailed);
    }
    r := FinishChain(pol, chain);
  }

  /** The search over anchors: the first chain wins, otherwise the last failure is reported. */
  ghost function SearchOutcome(pol: Policy, leaf: Cert, anchors: seq<Cert>, pool: seq<Cert>): Outcome {
    if anchors == [] then Failed(SignatureFailed)
    else
      var first := BuildOutcome(pol, leaf, anchors[0], pool);
      if !first.Failed? || |anchors| == 1 then first else SearchOutcome(pol, leaf, anchors[1..], pool)
  }

  method Build(pol: Policy, leaf: Cert, anchors: seq<Cert>, intermediates: seq<Cert>) returns (r: Outcome)
    requires !SearchOutcome(pol, leaf, anchors, intermediates).Unfinished?
    ensures r == SearchOutcome(pol, leaf, anchors, intermediates)
  {
    var errors: seq<Reason> := [];
    for i := 0 to |anchors|
      invariant |errors| == i
      invariant i < |anchors| ==>
        SearchOutcome(pol, leaf, anchors[i..], intermediates) == SearchOutcome(pol, leaf, anchors, intermediates)
      invariant i == |anchors| > 0 ==>
        SearchOutcome(pol, leaf, anchors, intermediates) == Failed(errors[i - 1])
    {
      assert anchors[i..][0] == anchors[i] && anchors[i..][1..] == anchors[i + 1..];
      r := TryBuild(pol, leaf, anchors[i], intermediates);
      if r.Built? {
        return;
      }
      errors := errors + [r.reason];
    }
    r := Failed(if |errors| > 0 then errors[|errors| - 1] else SignatureFailed);
  }

  // ----- What a returned chain is worth -----

  /**
   * A certification path from leaf to anchor (section 6.1 of RFC 5280, as far as the builder goes):
   * every certificate is certified by its successor, limits hold, and all names are allowed.
   */
  ghost predicate ValidPath(pol: Policy, leaf: Cert, anchor: Cert, pool: seq<Cert>, path: seq<Cert>) {
    && path != [] && path[0] == leaf && Last(path).der == anchor.der
    && Usable(pol, leaf) && MaySign(leaf)
    && (forall i :: 1 <= i < |path| ==> Link(pol, path, i))
    && (forall i :: 1 <= i < |path| ==> path[i] in pool || (i == |path| - 1 && path[i] == anchor))
    && NamesAllowed(pol, leaf, path[1..])
  }

  /** path[i] is a CA that certifies path[i - 1] and allows the i - 1 CAs between itself and the leaf. */
  ghost predicate Link(pol: Policy, path: seq<Cert>, i: int)
    requires 1 <= i < |path|
  {
    && path[i - 1].issuer == path[i].subject
    && Certifies(pol, path[i], path[i - 1])
    && AllowsDepth(path[i], i - 1)
  }

  /** What RFC 5280 asks of a path, in the fields of its certificates. */
  ghost predicate FieldsHold(pol: Policy, leaf: Cert, anchor: Cert, pool: seq<Cert>, path: seq<Cert>) {
    && path != [] && path[0] == leaf && path[|path| - 1].der == anchor.der
    && (forall i :: 0 <= i < |path| ==>
          && path[i].notBefore <= pol.now + pol.skewMs && pol.now - pol.skewMs <= path[i].notAfter
          && JwaName(path[i]) in pol.allowedAlgorithms)
    && (leaf.keyUsage.Some? ==> leaf.keyUsage.value.digitalSignature)
    && (forall i :: 1 <= i < |path| ==> LinkFieldsHold(pol, path, i))
    && (forall i :: 1 <= i < |path| ==> path[i] in pool || (i == |path| - 1 && path[i] == anchor))
    && AllAdmit(pol, leaf, path[1..])
  }

  ghost predicate LinkFieldsHold(pol: Policy, path: seq<Cert>, i: int)
    requires 1 <= i < |path|
  {
    && path[i - 1].issuer == path[i].subject && pol.verifies(path[i - 1], path[i])
    && !IdentifiersDiffer(path[i - 1], path[i])
    && (path[i].keyUsage.Some? ==> path[i].keyUsage.value.keyCertSign)
    && path[i].basic.Some? && path[i].basic.value.ca
    && (path[i].basic.value.pathLength.Some? ==> i - 1 <= path[i].basic.value.pathLength.value)
  }

  lemma LinkInFields(pol: Policy, path: seq<Cert>, i: int)
    requires 1 <= i < |path|
    ensures Link(pol, path, i) <==> LinkFieldsHold(pol, path, i) && Usable(pol, path[i])
  {
    KeyIdsConflictMeans(path[i - 1], path[i]);
  }

  /** A path is valid exactly when its fields say so; with the theorems below, that is what a built chain satisfies. */
  lemma ValidPathInFields(pol: Policy, leaf: Cert, anchor: Cert, pool: seq<Cert>, path: seq<Cert>)
    ensures ValidPath(pol, leaf, anchor, pool, path) <==> FieldsHold(pol, leaf, anchor, pool, path)
  {
    if path != [] { NamesAllowedExactly(pol, leaf, path[1..]); }
    forall i | 1 <= i < |path|
      ensures Link(pol, path, i) <==> LinkFieldsHold(pol, path, i) && Usable(pol, path[i])
    {
      LinkInFields(pol, path, i);
    }
    if ValidPath(pol, leaf, anchor, pool, path) {
      forall i | 0 <= i < |path|
        ensures Usable(pol, path[i])
      {
        if i > 0 { assert Link(pol, path, i); }
      }
    }
    if FieldsHold(pol, leaf, anchor, pool, path) {
      forall i | 1 <= i < |path|
        ensures Link(pol, path, i)
      {
        assert LinkFieldsHold(pol, path, i);
      }
    }
  }

  ghost predicate Partial(pol: Policy, leaf: Cert, pool: seq<Cert>, chain: seq<Cert>) {
    && chain != [] && chain[0] == leaf && Usable(pol, leaf) && MaySign(leaf)
    && (forall i :: 1 <= i < |chain| ==> Link(pol, chain, i))
    && (forall i :: 1 <= i < |chain| ==> chain[i] in pool)
  }

  lemma ExtendLinks(pol: Policy, chain: seq<Cert>, issuer: Cert)
    requires chain != [] && forall i :: 1 <= i < |chain| ==> Link(pol, chain, i)
    requires Last(chain).issuer == issuer.subject && CheckIssuer(pol, Last(chain), issuer, |chain| - 1).None?
    ensures forall i :: 1 <= i < |chain + [issuer]| ==> Link(pol, chain + [issuer], i)
  {
    forall i | 1 <= i < |chain + [issuer]|
      ensures Link(pol, chain + [issuer], i)
    {
      if i < |chain| { assert Link(pol, chain, i); }
    }
  }

  lemma {:induction false} ClimbIsSound(pol: Policy, leaf: Cert, anchor: Cert, pool: seq<Cert>, chain: seq<Cert>,
                                        fuel: nat)
    requires Partial(pol, leaf, pool, chain)
    requires Climb(pol, anchor, pool, chain, fuel).Built?
    ensures ValidPath(pol, leaf, anchor, pool, Climb(pol, anchor, pool, chain, fuel).chain)
    decreases fuel
  {
    var current := Last(chain);
    if current.subject != anchor.subject {
      var i := FindSubject(pool, current.issuer);
      if i == -1 {
        ExtendLinks(pol, chain, anchor);
      } else {
        ExtendLinks(pol, chain, pool[i]);
        assert pool[i] in pool;
        ClimbIsSound(pol, leaf, anchor, pool, chain + [pool[i]], fuel - 1);
      }
    }
  }

  /** Every chain the search returns is a valid path to one of the anchors it was given. */
  lemma {:induction false} SearchIsSound(pol: Policy, leaf: Cert, anchors: seq<Cert>, pool: seq<Cert>)
    requires SearchOutcome(pol, leaf, anchors, pool).Built?
    ensures var chain := SearchOutcome(pol, leaf, anchors, pool).chain;
      exists anchor :: anchor in anchors && ValidPath(pol, leaf, anchor, pool, chain)
  {
    if BuildOutcome(pol, leaf, anchors[0], pool).Built? {
      ClimbIsSound(pol, leaf, anchors[0], pool, [leaf], Bound(pool));
    } else {
      SearchIsSound(pol, leaf, anchors[1..], pool);
      assert forall a :: a in anchors[1..] ==> a in anchors;
    }
  }

  ghost predicate FailsBefore(pol: Policy, leaf: Cert, anchors: seq<Cert>, pool: seq<Cert>, k: nat) {
    k < |anchors| && forall j :: 0 <= j < k ==> BuildOutcome(pol, leaf, anchors[j], pool).Failed?
  }

  /**
   * The search returns a chain exactly when some anchor's climb builds it and those of all anchors before it
   * fail; it never ends exactly when some anchor's climb never ends and all before it fail. So an endless climb
   * for one anchor hides every later one.
   */
  lemma {:induction false} SearchBuildsExactly(pol: Policy, leaf: Cert, anchors: seq<Cert>, pool: seq<Cert>, r: Outcome)
    requires !r.Failed?
    ensures SearchOutcome(pol, leaf, anchors, pool) == r <==>
      exists k: nat :: FailsBefore(pol, leaf, anchors, pool, k) && BuildOutcome(pol, leaf, anchors[k], pool) == r
  {
    if anchors != [] {
      var rest := anchors[1..];
      if BuildOutcome(pol, leaf, anchors[0], pool).Failed? {
        SearchBuildsExactly(pol, leaf, rest, pool, r);
        assert forall k: nat :: k < |rest| ==>
          (FailsBefore(pol, leaf, rest, pool, k) <==> FailsBefore(pol, leaf, anchors, pool, k + 1)) by {
          assert forall k: nat :: k < |rest| ==> rest[k] == anchors[k + 1];
          assert forall k: nat :: 0 < k < |anchors| ==> anchors[k] == rest[k - 1];
        }
        forall k: nat | FailsBefore(pol, leaf, rest, pool, k) && BuildOutcome(pol, leaf, rest[k], pool) == r
          ensures FailsBefore(pol, leaf, anchors, pool, k + 1) && BuildOutcome(pol, leaf, anchors[k + 1], pool) == r
        {
        }
        forall k: nat | FailsBefore(pol, leaf, anchors, pool, k) && BuildOutcome(pol, leaf, anchors[k], pool) == r
          ensures k > 0 && FailsBefore(pol, leaf, rest, pool, k - 1) && BuildOutcome(pol, leaf, rest[k - 1], pool) == r
        {
        }
      } else {
        assert FailsBefore(pol, leaf, anchors, pool, 0);
        forall k: nat | FailsBefore(pol, leaf, anchors, pool, k)
          ensures k == 0
        {
        }
      }
    }
  }

  /** When every anchor's climb fails, the failure reported is the last anchor's. */
  lemma {:induction false} SearchReportsLastFailure(pol: Policy, leaf: Cert, anchors: seq<Cert>, pool: seq<Cert>)
    requires anchors != [] && forall k :: 0 <= k < |anchors| ==> BuildOutcome(pol, leaf, anchors[k], pool).Failed?
    ensures SearchOutcome(pol, leaf, anchors, pool) == BuildOutcome(pol, leaf, anchors[|anchors| - 1], pool)
  {
    if |anchors| > 1 {
      assert forall k :: 0 <= k < |anchors[1..]| ==> anchors[1..][k] == anchors[k + 1];
      SearchReportsLastFailure(pol, leaf, anchors[1..], pool);
    }
  }

  // ----- Exactly when the climb finds a chain -----

  /** The step from path[k] is the climb's: to the first namesake in the pool, or to the anchor when there is none. */
  ghost predicate FirstTurn(anchor: Cert, pool: seq<Cert>, path: seq<Cert>, k: int)
    requires 0 <= k < |path| - 1
  {
    var i := FindSubject(pool, path[k].issuer);
    && path[k].subject != anchor.subject
    && if i == -1 then k == |path| - 2 && path[k + 1] == anchor else path[k + 1] == pool[i]
  }

  /**
   * Every step goes to the first certificate with the issuer's name, and nothing before the end bears the
   * anchor's name.
   */
  ghost predicate FollowsFirsts(anchor: Cert, pool: seq<Cert>, path: seq<Cert>) {
    && path != [] && Last(path).subject == anchor.subject
    && forall k :: 0 <= k < |path| - 1 ==> FirstTurn(anchor, pool, path, k)
  }

  ghost predicate StaysInPool(anchor: Cert, pool: seq<Cert>, chain: seq<Cert>) {
    forall k :: 0 <= k < |chain| - 1 ==> FirstTurn(anchor, pool, chain, k) && FindSubject(pool, chain[k].issuer) != -1
  }

  lemma ExtendTurns(anchor: Cert, pool: seq<Cert>, chain: seq<Cert>, next: Cert)
    requires chain != [] && StaysInPool(anchor, pool, chain) && FirstTurn(anchor, pool, chain + [next], |chain| - 1)
    ensures forall k :: 0 <= k < |chain| ==> FirstTurn(anchor, pool, chain + [next], k)
    ensures FindSubject(pool, Last(chain).issuer) != -1 ==> StaysInPool(anchor, pool, chain + [next])
  {
    forall k | 0 <= k < |chain|
      ensures FirstTurn(anchor, pool, chain + [next], k)
    {
      if k < |chain| - 1 { assert FirstTurn(anchor, pool, chain, k); }
    }
  }

  lemma {:induction false} ClimbTakesFirsts(pol: Policy, anchor: Cert, pool: seq<Cert>, chain: seq<Cert>, fuel: nat)
    requires chain != [] && StaysInPool(anchor, pool, chain)
    requires Climb(pol, anchor, pool, chain, fuel).Built?
    ensures FollowsFirsts(anchor, pool, Climb(pol, anchor, pool, chain, fuel).chain)
    decreases fuel
  {
    var current := Last(chain);
    if current.subject != anchor.subject {
      var i := FindSubject(pool, current.issuer);
      if i == -1 {
        ExtendTurns(anchor, pool, chain, anchor);
      } else {
        ExtendTurns(anchor, pool, chain, pool[i]);
        ClimbTakesFirsts(pol, anchor, pool, chain + [pool[i]], fuel - 1);
      }
    }
  }

  lemma NamesAllowedOnPrefix(pol: Policy, leaf: Cert, path: seq<Cert>, n: nat)
    requires 1 <= n <= |path| && NamesAllowed(pol, leaf, path[1..])
    ensures NamesAllowed(pol, leaf, path[..n][1..])
  {
    assert forall c :: c in path[..n][1..] ==> c in path[1..];
  }

  /** The climb follows a valid path that takes its turns until it closes at the anchor. */
  lemma {:induction false} ClimbFollowsPath(pol: Policy, leaf: Cert, anchor: Cert, pool: seq<Cert>, path: seq<Cert>,
                                            n: nat)
    requires ValidPath(pol, leaf, anchor, pool, path) && FollowsFirsts(anchor, pool, path) && 1 <= n <= |path|
    ensures Climb(pol, anchor, pool, path[..n], |path| - n) == Built(path)
    decreases |path| - n
  {
    assert path[..|path|] == path;
    if n < |path| {
      assert FirstTurn(anchor, pool, path, n - 1);
      assert Link(pol, path, n);
      assert path[..n + 1] == path[..n] + [path[n]];
      if FindSubject(pool, path[n - 1].issuer) != -1 {
        ClimbFollowsPath(pol, leaf, anchor, pool, path, n + 1);
      }
    }
  }

  lemma {:induction false} MoreFuelSameOutcome(pol: Policy, anchor: Cert, pool: seq<Cert>, chain: seq<Cert>,
                                               fuel: nat, more: nat)
    requires chain != [] && fuel <= more && !Climb(pol, anchor, pool, chain, fuel).Unfinished?
    ensures Climb(pol, anchor, pool, chain, more) == Climb(pol, anchor, pool, chain, fuel)
    decreases fuel
  {
    var i := FindSubject(pool, Last(chain).issuer);
    if fuel > 0 && i != -1 && Last(chain).subject != anchor.subject &&
       CheckIssuer(pol, Last(chain), pool[i], |chain| - 1).None? {
      MoreFuelSameOutcome(pol, anchor, pool, chain + [pool[i]], fuel - 1, more - 1);
    }
  }

  lemma ValidFirstsAreBuilt(pol: Policy, leaf: Cert, anchor: Cert, pool: seq<Cert>, path: seq<Cert>)
    requires ValidPath(pol, leaf, anchor, pool, path) && FollowsFirsts(anchor, pool, path)
    ensures BuildOutcome(pol, leaf, anchor, pool) == Built(path)
  {
    assert path[..1] == [leaf];
    ClimbFollowsPath(pol, leaf, anchor, pool, path, 1);
    ClimbReturnsExactly(pol, leaf, anchor, pool);
    if |path| - 1 <= Bound(pool) {
      MoreFuelSameOutcome(pol, anchor, pool, [leaf], |path| - 1, Bound(pool));
    } else {
      MoreFuelSameOutcome(pol, anchor, pool, [leaf], Bound(pool), |path| - 1);
    }
  }

  /**
   * For any pool: a path is built exactly when it is valid and takes the first namesake at every step. So a
   * chain is missed exactly when valid paths exist and none of them takes the first namesakes.
   */
  lemma BuildsExactlyAlongFirsts(pol: Policy, leaf: Cert, anchor: Cert, pool: seq<Cert>, path: seq<Cert>)
    ensures BuildOutcome(pol, leaf, anchor, pool) == Built(path) <==>
      ValidPath(pol, leaf, anchor, pool, path) && FollowsFirsts(anchor, pool, path)
  {
    if BuildOutcome(pol, leaf, anchor, pool) == Built(path) {
      ClimbIsSound(pol, leaf, anchor, pool, [leaf], Bound(pool));
      ClimbTakesFirsts(pol, anchor, pool, [leaf], Bound(pool));
    }
    if ValidPath(pol, leaf, anchor, pool, path) && FollowsFirsts(anchor, pool, path) {
      ValidFirstsAreBuilt(pol, leaf, anchor, pool, path);
    }
  }

  /** No two different certificates of the pool share a subject, and only the anchor has the anchor's name or bytes. */
  ghost predicate Unambiguous(leaf: Cert, anchor: Cert, pool: seq<Cert>) {
    && (forall c, d :: c in pool && d in pool && c.subject == d.subject ==> c == d)
    && (forall c :: (c in pool || c == leaf) && (c.subject == anchor.subject || c.der == anchor.der) ==> c == anchor)
  }

  function FirstNamed(path: seq<Cert>, subject: string): (k: nat)
    requires path != [] && Last(path).subject == subject
    ensures k < |path| && path[k].subject == subject && forall j :: 0 <= j < k ==> path[j].subject != subject
  {
    if path[0].subject == subject then 0
    else
      assert Last(path[1..]) == Last(path);
      assert forall j :: 0 < j < |path| ==> path[j] == path[1..][j - 1];
      FirstNamed(path[1..], subject) + 1
  }

  /** Over an unambiguous pool any valid path, cut at the anchor, takes the first namesakes: there are no others. */
  lemma UnambiguousPathsFollowFirsts(pol: Policy, leaf: Cert, anchor: Cert, pool: seq<Cert>, path: seq<Cert>)
    returns (cut: seq<Cert>)
    requires Unambiguous(leaf, anchor, pool) && ValidPath(pol, leaf, anchor, pool, path)
    ensures ValidPath(pol, leaf, anchor, pool, cut) && FollowsFirsts(anchor, pool, cut)
  {
    assert Last(path) in pool || Last(path) == leaf || Last(path) == anchor;
    var m := FirstNamed(path, anchor.subject);
    cut := path[..m + 1];
    assert path[m] in pool || path[m] == leaf || path[m] == anchor;
    NamesAllowedOnPrefix(pol, leaf, path, m + 1);
    forall i | 1 <= i < |cut|
      ensures Link(pol, cut, i)
    {
      assert Link(pol, path, i);
    }
    forall k | 0 <= k < m
      ensures FirstTurn(anchor, pool, cut, k)
    {
      assert Link(pol, path, k + 1);
      var i := FindSubject(pool, path[k].issuer);
      if i != -1 { assert pool[i] in pool; }
    }
  }

  /** Over an unambiguous pool the builder finds a chain exactly when a valid path exists. */
  lemma BuildsExactlyWhenPathExists(pol: Policy, leaf: Cert, anchor: Cert, pool: seq<Cert>)
    requires Unambiguous(leaf, anchor, pool)
    ensures BuildOutcome(pol, leaf, anchor, pool).Built? <==> exists path :: ValidPath(pol, leaf, anchor, pool, path)
  {
    if BuildOutcome(pol, leaf, anchor, pool).Built? {
      BuildsExactlyAlongFirsts(pol, leaf, anchor, pool, BuildOutcome(pol, leaf, anchor, pool).chain);
    }
    forall path | ValidPath(pol, leaf, anchor, pool, path)
      ensures BuildOutcome(pol, leaf, anchor, pool).Built?
    {
      var cut := UnambiguousPathsFollowFirsts(pol, leaf, anchor, pool, path);
      BuildsExactlyAlongFirsts(pol, leaf, anchor, pool, cut);
    }
  }

  // ----- What the depth counter counts -----

  predicate SelfIssued(c: Cert) {
    c.subject == c.issuer
  }

  /** The CAs above the leaf that are not self-issued: what section 4.2.1.9 of RFC 5280 counts. */
  ghost function CountedDepth(chain: seq<Cert>): nat {
    if |chain| <= 1 then 0 else CountedDepth(chain[..|chain| - 1]) + if SelfIssued(Last(chain)) then 0 else 1
  }

  /** The climb with that depth in place of the number of all CAs above the leaf. */
  ghost function CountedClimb(pol: Policy, anchor: Cert, pool: seq<Cert>, chain: seq<Cert>, fuel: nat): Outcome
    requires chain != []
    decreases fuel
  {
    var current := Last(chain);
    if current.subject == anchor.subject then
      if current.der != anchor.der then Failed(SignatureFailed) else Finish(pol, chain)
    else
      var i := FindSubject(pool, current.issuer);
      if i == -1 then
        if current.issuer != anchor.subject then Failed(SignatureFailed)
        else match CheckIssuer(pol, current, anchor, CountedDepth(chain))
          case Some(reason) => Failed(reason)
          case None => Finish(pol, chain + [anchor])
      else match CheckIssuer(pol, current, pool[i], CountedDepth(chain))
        case Some(reason) => Failed(reason)
        case None => if fuel == 0 then Unfinished else CountedClimb(pol, anchor, pool, chain + [pool[i]], fuel - 1)
  }

  /** The climb stands on a pool certificate that is its own first namesake. */
  ghost predicate StandsOnSelfIssued(anchor: Cert, pool: seq<Cert>, chain: seq<Cert>) {
    && chain != [] && SelfIssued(Last(chain)) && Last(chain).subject != anchor.subject
    && FindSubject(pool, Last(chain).issuer) != -1 && pool[FindSubject(pool, Last(chain).issuer)] == Last(chain)
  }

  /** From a self-issued pool certificate there is no way on but to itself. */
  lemma {:induction false} SelfIssuedNeverBuilds(pol: Policy, anchor: Cert, pool: seq<Cert>, chain: seq<Cert>,
                                                 fuel: nat)
    requires StandsOnSelfIssued(anchor, pool, chain)
    ensures !Climb(pol, anchor, pool, chain, fuel).Built? && !CountedClimb(pol, anchor, pool, chain, fuel).Built?
    decreases fuel
  {
    if fuel > 0 { SelfIssuedNeverBuilds(pol, anchor, pool, chain + [Last(chain)], fuel - 1); }
  }

  /** Both counters build the same chains: they disagree only on climbs that build nothing. */
  lemma {:induction false} CountersBuildAlike(pol: Policy, anchor: Cert, pool: seq<Cert>, chain: seq<Cert>, fuel: nat)
    requires chain != [] && CountedDepth(chain) == |chain| - 1
    ensures var r, s := Climb(pol, anchor, pool, chain, fuel), CountedClimb(pol, anchor, pool, chain, fuel);
      r.Built? || s.Built? ==> r == s
    decreases fuel
  {
    var i := FindSubject(pool, Last(chain).issuer);
    if Last(chain).subject != anchor.subject && i != -1 && fuel > 0 {
      var next := chain + [pool[i]];
      assert next[..|next| - 1] == chain;
      if !SelfIssued(pool[i]) {
        CountersBuildAlike(pol, anchor, pool, next, fuel - 1);
      } else if pool[i].subject != anchor.subject {
        SelfIssuedNeverBuilds(pol, anchor, pool, next, fuel - 1);
      }
    }
  }

  /** The climb meets a self-issued CA of another name whose limit it has reached, or will reach going round. */
  predicate StopsOnLimit(pol: Policy, anchor: Cert, ca: Cert, depth: nat) {
    && SelfIssued(ca) && ca.subject != anchor.subject
    && LimitOf(ca).Some? && (LimitOf(ca).value == depth || Certifies(pol, ca, ca))
  }

  /**
   * Following accepted issuers that are not self-issued, the climb comes to a self-issued one with a limit that
   * is used up, or that certifies itself.
   */
  predicate MeetsLimited(pol: Policy, anchor: Cert, pool: seq<Cert>, chain: seq<Cert>, fuel: nat)
    requires chain != []
    decreases fuel
  {
    var current := Last(chain);
    var i := FindSubject(pool, current.issuer);
    && current.subject != anchor.subject && i != -1 && fuel > 0
    && CheckIssuer(pol, current, pool[i], |chain| - 1).None?
    && if SelfIssued(pool[i]) then StopsOnLimit(pol, anchor, pool[i], |chain| - 1)
       else MeetsLimited(pol, anchor, pool, chain + [pool[i]], fuel - 1)
  }

  /** On a CA that certifies itself within its limit, not counting it goes round for as long as there is fuel. */
  lemma {:induction false} CountedClimbGoesRound(pol: Policy, anchor: Cert, pool: seq<Cert>, chain: seq<Cert>,
                                                 fuel: nat)
    requires StandsOnSelfIssued(anchor, pool, chain) && |chain| > 1
    requires Certifies(pol, Last(chain), Last(chain)) && AllowsDepth(Last(chain), CountedDepth(chain))
    ensures CountedClimb(pol, anchor, pool, chain, fuel).Unfinished?
    decreases fuel
  {
    if fuel > 0 {
      assert (chain + [Last(chain)])[..|chain|] == chain;
      CountedClimbGoesRound(pol, anchor, pool, chain + [Last(chain)], fuel - 1);
    }
  }

  /** Counting it stops at the limit, or goes round as well when there is none. */
  lemma {:induction false} ClimbGoesRound(pol: Policy, anchor: Cert, pool: seq<Cert>, chain: seq<Cert>, fuel: nat)
    requires StandsOnSelfIssued(anchor, pool, chain) && Certifies(pol, Last(chain), Last(chain))
    requires LimitOf(Last(chain)).Some? ==> LimitOf(Last(chain)).value < |chain| - 1 + fuel
    ensures Climb(pol, anchor, pool, chain, fuel) ==
      if LimitOf(Last(chain)).Some? then Failed(PathTooLong) else Unfinished
    decreases fuel
  {
    if fuel > 0 && AllowsDepth(Last(chain), |chain| - 1) {
      ClimbGoesRound(pol, anchor, pool, chain + [Last(chain)], fuel - 1);
    }
  }

  /** What the two counters make of the self-issued CA just reached. */
  lemma CountersPart(pol: Policy, anchor: Cert, pool: seq<Cert>, chain: seq<Cert>, fuel: nat)
    requires StandsOnSelfIssued(anchor, pool, chain) && |chain| > 1 && CountedDepth(chain) == |chain| - 2
    requires Usable(pol, Last(chain)) && IsCa(Last(chain)) && AllowsDepth(Last(chain), |chain| - 2)
    requires LimitOf(Last(chain)).Some? ==> LimitOf(Last(chain)).value < |chain| - 1 + fuel
    ensures Climb(pol, anchor, pool, chain, fuel) != CountedClimb(pol, anchor, pool, chain, fuel) <==>
      StopsOnLimit(pol, anchor, Last(chain), |chain| - 2)
    ensures StopsOnLimit(pol, anchor, Last(chain), |chain| - 2) ==>
      Climb(pol, anchor, pool, chain, fuel) == Failed(PathTooLong)
  {
    var ca := Last(chain);
    if Certifies(pol, ca, ca) {
      ClimbGoesRound(pol, anchor, pool, chain, fuel);
      CountedClimbGoesRound(pol, anchor, pool, chain, fuel);
    } else if LimitOf(ca).Some? && LimitOf(ca).value == |chain| - 2 {
      assert CheckIssuer(pol, ca, ca, |chain| - 1) == Some(PathTooLong);
      assert CheckIssuer(pol, ca, ca, |chain| - 2) in {Some(KeyIdMismatch), Some(SignatureFailed)};
    } else {
      assert CheckIssuer(pol, ca, ca, |chain| - 1) == CheckIssuer(pol, ca, ca, |chain| - 2) != None;
    }
  }

  lemma {:induction false} CountersPartExactly(pol: Policy, anchor: Cert, pool: seq<Cert>, chain: seq<Cert>, fuel: nat)
    requires chain != [] && CountedDepth(chain) == |chain| - 1 && fuel + |chain| == Bound(pool) + 1
    ensures Climb(pol, anchor, pool, chain, fuel) != CountedClimb(pol, anchor, pool, chain, fuel) <==>
      MeetsLimited(pol, anchor, pool, chain, fuel)
    ensures MeetsLimited(pol, anchor, pool, chain, fuel) ==>
      Climb(pol, anchor, pool, chain, fuel) == Failed(PathTooLong)
    decreases fuel
  {
    var current := Last(chain);
    var i := FindSubject(pool, current.issuer);
    if current.subject != anchor.subject && i != -1 && fuel > 0 &&
       CheckIssuer(pol, current, pool[i], |chain| - 1).None? {
      var next := chain + [pool[i]];
      assert next[..|next| - 1] == chain && Last(next) == pool[i];
      if !SelfIssued(pool[i]) {
        CountersPartExactly(pol, anchor, pool, next, fuel - 1);
      } else if pool[i].subject != anchor.subject {
        CountersPart(pol, anchor, pool, next, fuel - 1);
      }
    }
  }

  /**
   * The two counters make a climb end differently exactly when it comes, over issuers that are not self-issued,
   * to a self-issued CA with a limit that is used up there or that the CA uses up by certifying itself; counting
   * every CA then fails on the path length.
   */
  lemma CountersDisagreeExactly(pol: Policy, leaf: Cert, anchor: Cert, pool: seq<Cert>)
    ensures Climb(pol, anchor, pool, [leaf], Bound(pool)) != CountedClimb(pol, anchor, pool, [leaf], Bound(pool)) <==>
      MeetsLimited(pol, anchor, pool, [leaf], Bound(pool))
    ensures MeetsLimited(pol, anchor, pool, [leaf], Bound(pool)) ==>
      Climb(pol, anchor, pool, [leaf], Bound(pool)) == Failed(PathTooLong)
  {
    CountersPartExactly(pol, anchor, pool, [leaf], Bound(pool));
  }

  lemma {:induction false} SelfIssuedRepeats(anchor: Cert, pool: seq<Cert>, path: seq<Cert>, k: nat, m: nat)
    requires FollowsFirsts(anchor, pool, path) && k <= m < |path|
    requires path[k].subject != anchor.subject && SelfIssued(path[k])
    requires FindSubject(pool, path[k].issuer) != -1 && pool[FindSubject(pool, path[k].issuer)] == path[k]
    ensures path[m] == path[k]
    decreases m
  {
    if k < m {
      SelfIssuedRepeats(anchor, pool, path, k, m - 1);
      assert FirstTurn(anchor, pool, path, m - 1);
    }
  }

  /** No chain that is built has a self-issued certificate between the leaf and its end. */
  lemma BuiltChainsHaveNoSelfIssued(pol: Policy, leaf: Cert, anchor: Cert, pool: seq<Cert>, k: nat)
    requires BuildOutcome(pol, leaf, anchor, pool).Built? && 1 <= k < |BuildOutcome(pol, leaf, anchor, pool).chain| - 1
    ensures !SelfIssued(BuildOutcome(pol, leaf, anchor, pool).chain[k])
  {
    var chain := BuildOutcome(pol, leaf, anchor, pool).chain;
    BuildsExactlyAlongFirsts(pol, leaf, anchor, pool, chain);
    assert FirstTurn(anchor, pool, chain, k - 1) && FirstTurn(anchor, pool, chain, k) && Link(pol, chain, k);
    if SelfIssued(chain[k]) { SelfIssuedRepeats(anchor, pool, chain, k, |chain| - 1); }
  }

  // ----- Two pools that show the limits -----

  function PlainCert(id: byte, subject: string, issuer: string, ca: bool): Cert {
    Cert([id], "", subject, issuer, 0, 0, "ECDSA", "SHA-256",
         None, Some(BasicConstraints(ca, None)), None, None, None, [])
  }

  /** Verifies every signature but the ones attributed to certificate 2. */
  const LENIENT: Policy :=
    Policy(0, 0, ["ES256"], (child: Cert, issuer: Cert) => issuer.der != [2], (u: string) => Option<string>.None)

  lemma PlainCertsAreFine(id: byte, subject: string, issuer: string, ca: bool)
    ensures Usable(LENIENT, PlainCert(id, subject, issuer, ca)) && MaySign(PlainCert(id, subject, issuer, ca))
    ensures SupportedNames([]) == []
  {
  }

  lemma PlainIssuer(child: Cert, id: byte, subject: string, issuer: string, depth: nat)
    ensures CheckIssuer(LENIENT, child, PlainCert(id, subject, issuer, true), depth).None? <==> id != 2
  {
    PlainCertsAreFine(id, subject, issuer, true);
  }

  /** A self-issued CA that allows no CA below it. */
  function SelfIssuedCa(): Cert {
    PlainCert(0, "A", "A", true).(basic := Some(BasicConstraints(true, Some(0))))
  }

  lemma {:induction false} CountedClimbStays(chain: seq<Cert>, fuel: nat)
    requires chain != [] && Last(chain).issuer == "A" && Last(chain).subject != "root" && CountedDepth(chain) == 0
    ensures CountedClimb(LENIENT, PlainCert(4, "root", "root", true), [SelfIssuedCa()], chain, fuel).Unfinished?
    decreases fuel
  {
    assert CheckIssuer(LENIENT, Last(chain), SelfIssuedCa(), 0).None?;
    if fuel > 0 {
      assert (chain + [SelfIssuedCa()])[..|chain|] == chain;
      CountedClimbStays(chain + [SelfIssuedCa()], fuel - 1);
    }
  }

  /**
   * Where the counters disagree: above a self-issued CA with limit 0 the climb meets it again, counts it and
   * stops at the limit; not counting it would keep the climb going forever. Neither builds a chain.
   */
  lemma SelfIssuedCaIsCounted()
    ensures var leaf, anchor := PlainCert(3, "leaf", "A", false), PlainCert(4, "root", "root", true);
      && BuildOutcome(LENIENT, leaf, anchor, [SelfIssuedCa()]) == Failed(PathTooLong)
      && forall fuel: nat :: CountedClimb(LENIENT, anchor, [SelfIssuedCa()], [leaf], fuel).Unfinished?
  {
    var leaf, anchor, ca := PlainCert(3, "leaf", "A", false), PlainCert(4, "root", "root", true), SelfIssuedCa();
    assert CheckIssuer(LENIENT, leaf, ca, 0).None? && CheckIssuer(LENIENT, ca, ca, 1) == Some(PathTooLong);
    assert Last([leaf]) == leaf && Last([leaf, ca]) == ca && [leaf] + [ca] == [leaf, ca];
    assert FindSubject([ca], "A") == 0;
    assert Climb(LENIENT, anchor, [ca], [leaf, ca], Bound([ca]) - 1) == Failed(PathTooLong);
    forall fuel: nat
      ensures CountedClimb(LENIENT, anchor, [ca], [leaf], fuel).Unfinished?
    {
      CountedClimbStays([leaf], fuel);
    }
  }

  /** Two CAs that name each other as issuer and set no path length limit keep the climb going forever. */
  lemma CrossIssuedPairNeverEnds()
    ensures var pool := [PlainCert(0, "A", "B", true), PlainCert(1, "B", "A", true)];
      ClimbNeverEnds(LENIENT, PlainCert(3, "leaf", "A", false), PlainCert(4, "root", "root", true), pool)
  {
    var leaf, anchor := PlainCert(3, "leaf", "A", false), PlainCert(4, "root", "root", true);
    var pool := [PlainCert(0, "A", "B", true), PlainCert(1, "B", "A", true)];
    var w := ClimbWalk(LENIENT, leaf, anchor, pool);
    PlainIssuer(leaf, 0, "A", "B", 0);
    PlainIssuer(pool[0], 1, "B", "A", 1);
    PlainIssuer(pool[1], 0, "A", "B", 2);
    assert NextIssuer(LENIENT, anchor, pool, leaf) == Some(0);
    assert NextIssuer(LENIENT, anchor, pool, pool[0]) == Some(1);
    assert NextIssuer(LENIENT, anchor, pool, pool[1]) == Some(0);
    assert At(w, 0) == Some(0) && At(w, 1) == Some(1) && At(w, 2) == Some(0);
    assert Unlimited(w, 0) && Unlimited(w, 1);
    assert Accepted(w, 0) && Accepted(w, 1) && Accepted(w, 2);
    assert CycleBetween(w, 0, 2);
  }

  /** Of two issuers with the same name only the first is tried, so a valid path can be missed. */
  lemma FirstOfTwoNamesakesWins()
    ensures
      var leaf, anchor := PlainCert(3, "leaf", "A", false), PlainCert(4, "root", "root", true);
      var pool := [PlainCert(2, "A", "root", true), PlainCert(1, "A", "root", true)];
      && ValidPath(LENIENT, leaf, anchor, pool, [leaf, pool[1], anchor])
      && BuildOutcome(LENIENT, leaf, anchor, pool) == Failed(SignatureFailed)
  {
    var leaf, anchor := PlainCert(3, "leaf", "A", false), PlainCert(4, "root", "root", true);
    var pool := [PlainCert(2, "A", "root", true), PlainCert(1, "A", "root", true)];
    var path := [leaf, pool[1], anchor];
    PlainCertsAreFine(3, "leaf", "A", false);
    PlainCertsAreFine(2, "A", "root", true);
    PlainIssuer(leaf, 1, "A", "root", 0);
    PlainIssuer(pool[1], 4, "root", "root", 1);
    assert Link(LENIENT, path, 1) && Link(LENIENT, path, 2);
    assert path[1] == pool[1] && pool[1] in pool && path[2] == anchor;
    assert forall c :: c in path[1..] ==> c == pool[1] || c == anchor;
    assert NamesAllowed(LENIENT, leaf, path[1..]);
    assert FindSubject(pool, "A") == 0;
    assert Last([leaf]) == leaf;
  }
}
