/**
 * Name constraints over an arbitrary subtree test: every leaf name must lie in some
 * permitted subtree of its kind, if there is one, and in no excluded subtree
 * (section 4.2.1.10 of RFC 5280).
 */
module NameConstraints {
  import opened Names

  type SubtreeTest = (Name, Name) -> bool

  /** A name is only ever under a subtree of its own kind. */
  ghost predicate KeepsKind(under: SubtreeTest) {
    forall n, s :: under(n, s) ==> n.kind == s.kind
  }

  ghost predicate MatchesAny(under: SubtreeTest, n: Name, subtrees: seq<Name>) {
    exists i :: 0 <= i < |subtrees| && under(n, subtrees[i])
  }

  ghost predicate HasKind(subtrees: seq<Name>, kind: Kind) {
    exists i :: 0 <= i < |subtrees| && subtrees[i].kind == kind
  }

  /** n lies in some permitted subtree of its kind, if there is any, and in no excluded one. */
  ghost predicate NameAllowed(under: SubtreeTest, n: Name, permitted: seq<Name>, excluded: seq<Name>) {
    (HasKind(permitted, n.kind) ==> MatchesAny(under, n, permitted)) && !MatchesAny(under, n, excluded)
  }

  function OfKind(names: seq<Name>, kind: Kind): (r: seq<Name>)
    ensures forall n :: n in r <==> n in names && n.kind == kind
  {
    if names == [] then []
    else
      assert names == [names[0]] + names[1..];
      (if names[0].kind == kind then [names[0]] else []) + OfKind(names[1..], kind)
  }

  lemma {:induction false} OfKindEmptyExactly(subtrees: seq<Name>, kind: Kind)
    ensures HasKind(subtrees, kind) <==> |OfKind(subtrees, kind)| > 0
  {
    var filtered := OfKind(subtrees, kind);
    if |filtered| > 0 { assert filtered[0] in subtrees; }
    if HasKind(subtrees, kind) {
      var i :| 0 <= i < |subtrees| && subtrees[i].kind == kind;
      assert subtrees[i] in filtered;
    }
  }

  /** Filtering the subtrees by the name's kind loses no match. */
  lemma OfKindMatches(under: SubtreeTest, n: Name, subtrees: seq<Name>)
    requires KeepsKind(under)
    ensures MatchesAny(under, n, OfKind(subtrees, n.kind)) <==> MatchesAny(under, n, subtrees)
  {
    var filtered := OfKind(subtrees, n.kind);
    if MatchesAny(under, n, filtered) {
      var i :| 0 <= i < |filtered| && under(n, filtered[i]);
      assert filtered[i] in subtrees;
    }
    if MatchesAny(under, n, subtrees) {
      var i :| 0 <= i < |subtrees| && under(n, subtrees[i]);
      assert subtrees[i] in filtered;
    }
  }

  method MatchesSome(under: SubtreeTest, n: Name, subtrees: seq<Name>) returns (found: bool)
    ensures found <==> MatchesAny(under, n, subtrees)
  {
    for i := 0 to |subtrees|
      invariant forall k :: 0 <= k < i ==> !under(n, subtrees[k])
    {
      if under(n, subtrees[i]) {
        return true;
      }
    }
    return false;
  }

  ghost predicate AllowedOfKind(under: SubtreeTest, names: seq<Name>, permitted: seq<Name>, excluded: seq<Name>,
                                kind: Kind) {
    forall n :: n in names && n.kind == kind ==> NameAllowed(under, n, permitted, excluded)
  }

  ghost predicate AllMatch(under: SubtreeTest, names: seq<Name>, subtrees: seq<Name>) {
    forall i :: 0 <= i < |names| ==> MatchesAny(under, names[i], subtrees)
  }

  ghost predicate NoneMatch(under: SubtreeTest, names: seq<Name>, subtrees: seq<Name>) {
    forall i :: 0 <= i < |names| ==> !MatchesAny(under, names[i], subtrees)
  }

  /** Every leaf name of the kind must fall under one of the permitted subtrees of the kind, if there is any. */
  method AllPermitted(under: SubtreeTest, leafForType: seq<Name>, permitted: seq<Name>, kind: Kind) returns (ok: bool)
    requires KeepsKind(under)
    requires forall i :: 0 <= i < |leafForType| ==> leafForType[i].kind == kind
    ensures ok <==> (HasKind(permitted, kind) ==> AllMatch(under, leafForType, permitted))
  {
    var permittedForType := OfKind(permitted, kind);
    OfKindEmptyExactly(permitted, kind);
    if |permittedForType| > 0 {
      ok := EachMatches(under, leafForType, permitted, permittedForType, kind);
    } else {
      ok := true;
    }
  }

  method EachMatches(under: SubtreeTest, leafForType: seq<Name>, permitted: seq<Name>, permittedForType: seq<Name>,
                     kind: Kind)
    returns (ok: bool)
    requires KeepsKind(under) && permittedForType == OfKind(permitted, kind)
    requires forall i :: 0 <= i < |leafForType| ==> leafForType[i].kind == kind
    ensures ok <==> AllMatch(under, leafForType, permitted)
  {
    for i := 0 to |leafForType|
      invariant AllMatch(under, leafForType[..i], permitted)
    {
      OfKindMatches(under, leafForType[i], permitted);
      var found := MatchesSome(under, leafForType[i], permittedForType);
      if !found {
        return false;
      }
    }
    ok := true;
  }

  /** No leaf name of the kind may fall under an excluded subtree of the kind. */
  method NoneExcluded(under: SubtreeTest, leafForType: seq<Name>, excluded: seq<Name>, kind: Kind) returns (ok: bool)
    requires forall i :: 0 <= i < |leafForType| ==> leafForType[i].kind == kind
    requires KeepsKind(under)
    ensures ok <==> NoneMatch(under, leafForType, excluded)
  {
    var excludedForType := OfKind(excluded, kind);
    for i := 0 to |leafForType|
      invariant NoneMatch(under, leafForType[..i], excluded)
    {
      OfKindMatches(under, leafForType[i], excluded);
      var found := MatchesSome(under, leafForType[i], excludedForType);
      if found {
        return false;
      }
    }
    ok := true;
  }

  lemma AllowedByPosition(under: SubtreeTest, names: seq<Name>, filtered: seq<Name>, permitted: seq<Name>,
                          excluded: seq<Name>, kind: Kind)
    requires filtered == OfKind(names, kind)
    ensures AllowedOfKind(under, names, permitted, excluded, kind) <==>
      (HasKind(permitted, kind) ==> AllMatch(under, filtered, permitted)) && NoneMatch(under, filtered, excluded)
  {
    if AllowedOfKind(under, names, permitted, excluded, kind) {
      forall i | 0 <= i < |filtered|
        ensures NameAllowed(under, filtered[i], permitted, excluded)
        ensures filtered[i].kind == kind
      {
        assert filtered[i] in filtered;
      }
    } else {
      var n :| n in names && n.kind == kind && !NameAllowed(under, n, permitted, excluded);
      assert n in filtered;
      var k :| 0 <= k < |filtered| && filtered[k] == n;
    }
  }

  /** The checks for one name type; false where the builder throws. */
  method ApplyConstraintsForType(under: SubtreeTest, leafNames: seq<Name>, permitted: seq<Name>, excluded: seq<Name>,
                                 kind: Kind)
    returns (ok: bool)
    requires KeepsKind(under)
    ensures ok <==> AllowedOfKind(under, leafNames, permitted, excluded, kind)
  {
    var leafForType := OfKind(leafNames, kind);
    AllowedByPosition(under, leafNames, leafForType, permitted, excluded, kind);
    assert forall i :: 0 <= i < |leafForType| ==> leafForType[i] in leafForType;
    ok := AllPermitted(under, leafForType, permitted, kind);
    if ok {
      ok := NoneExcluded(under, leafForType, excluded, kind);
    }
  }

  const KINDS: seq<Kind> := [DN, DNS, EMAIL, URI]

  method CheckOneCa(under: SubtreeTest, leafNames: seq<Name>, permitted: seq<Name>, excluded: seq<Name>)
    returns (ok: bool)
    requires KeepsKind(under)
    ensures ok <==> forall n :: n in leafNames ==> NameAllowed(under, n, permitted, excluded)
  {
    for t := 0 to |KINDS|
      invariant forall k :: 0 <= k < t ==> AllowedOfKind(under, leafNames, permitted, excluded, KINDS[k])
    {
      ok := ApplyConstraintsForType(under, leafNames, permitted, excluded, KINDS[t]);
      if !ok {
        return;
      }
    }
    forall n | n in leafNames
      ensures NameAllowed(under, n, permitted, excluded)
    {
      var k := if n.kind == DN then 0 else if n.kind == DNS then 1 else if n.kind == EMAIL then 2 else 3;
      assert AllowedOfKind(under, leafNames, permitted, excluded, KINDS[k]);
    }
    ok := true;
  }
}
