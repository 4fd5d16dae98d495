/**
 * Anchor collection of the SD-JWT parser: which disclosure hashes a JSON value
 * commits to, and where in the value each of them is spelled out.
 *
 * Section 4.2 of RFC 9901 gives the two kinds of anchor: an entry of an `_sd` array
 * (object property, 3-element disclosure) and a {"...": hash} array element
 * (2-element disclosure).
 */
module SdJwtAnchors {

  // ----- JSON values and the hashes they commit to -----

  datatype Field = Field(key: string, value: Json)

  datatype Json =
    | Null
    | Bool(b: bool)
    | Num(n: real)
    | Str(s: string)
    | Arr(items: seq<Json>)
    | Obj(fields: seq<Field>)

  datatype Anchor = Property(hash: string) | Element(hash: string)

  /** An array item of the exact shape {"...": "hash"}. */
  predicate IsPlaceholder(item: Json) {
    item.Obj? && |item.fields| == 1 && item.fields[0].key == "..." && item.fields[0].value.Str?
  }

  /** An object member that carries a list of property hashes. */
  predicate IsSdList(f: Field) {
    f.key == "_sd" && f.value.Arr?
  }

  function AnchorsOf(node: Json): set<Anchor>
    decreases node, 1
  {
    match node
    case Arr(items) => AnchorsOfItems(items)
    case Obj(fields) => AnchorsOfFields(fields)
    case _ => {}
  }

  function AnchorsOfItems(items: seq<Json>): set<Anchor>
    decreases items, 0
  {
    if items == [] then {} else
      var n := |items| - 1;
      AnchorsOfItems(items[..n]) +
      if IsPlaceholder(items[n]) then {Element(items[n].fields[0].value.s)} else AnchorsOf(items[n])
  }

  function AnchorsOfFields(fields: seq<Field>): set<Anchor>
    decreases fields, 0
  {
    if fields == [] then {} else
      var n := |fields| - 1;
      AnchorsOfFields(fields[..n]) +
      if IsSdList(fields[n]) then SdEntries(fields[n].value.items) else AnchorsOf(fields[n].value)
  }

  function SdEntries(items: seq<Json>): set<Anchor> {
    set x | x in items && x.Str? :: Property(x.s)
  }

  /** The sets collectAnchorHashes fills while it walks a value. */
  class AnchorCollector {
    var kvHashes: set<string>
    var arrayElemHashes: set<string>

    constructor ()
      ensures Found() == {}
    {
      kvHashes, arrayElemHashes := {}, {};
    }

    ghost function Found(): set<Anchor>
      reads this
    {
      (set h | h in kvHashes :: Property(h)) + (set h | h in arrayElemHashes :: Element(h))
    }

    method Visit(value: Json)
      modifies this
      ensures Found() == old(Found()) + AnchorsOf(value)
      decreases value
    {
      match value
      case Arr(items) =>
        for i := 0 to |items|
          invariant Found() == old(Found()) + AnchorsOfItems(items[..i])
        {
          assert items[..i + 1][..i] == items[..i];
          var item := items[i];
          if IsPlaceholder(item) {
            arrayElemHashes := arrayElemHashes + {item.fields[0].value.s};
          } else {
            Visit(item);
          }
        }
        assert items[..|items|] == items;
      case Obj(fields) =>
        for i := 0 to |fields|
          invariant Found() == old(Found()) + AnchorsOfFields(fields[..i])
        {
          assert fields[..i + 1][..i] == fields[..i];
          if IsSdList(fields[i]) {
            AddSdEntries(fields[i].value.items);
          } else {
            Visit(fields[i].value);
          }
        }
        assert fields[..|fields|] == fields;
      case _ =>
    }

    method AddSdEntries(items: seq<Json>)
      modifies this
      ensures Found() == old(Found()) + SdEntries(items)
    {
      for i := 0 to |items|
        invariant Found() == old(Found()) + SdEntries(items[..i])
      {
        assert items[..i + 1] == items[..i] + [items[i]];
        if items[i].Str? {
          kvHashes := kvHashes + {items[i].s};
        }
      }
      assert items[..|items|] == items;
    }
  }

  // ----- Which positions of a document count: an address-based reading -----

  /** The array item {"...": h}. */
  ghost predicate IsElementCommitment(item: Json, h: string) {
    item == Obj([Field("...", Str(h))])
  }

  /** node sits at address path below root, without crossing an `_sd` list or an item {"...": h}. */
  ghost predicate At(root: Json, path: seq<nat>, node: Json)
    decreases path
  {
    if path == [] then node == root
    else match root
      case Arr(items) =>
        && path[0] < |items| && (forall h :: !IsElementCommitment(items[path[0]], h))
        && At(items[path[0]], path[1..], node)
      case Obj(fields) =>
        && path[0] < |fields| && !(fields[path[0]].key == "_sd" && fields[path[0]].value.Arr?)
        && At(fields[path[0]].value, path[1..], node)
      case _ => false
  }

  /** node itself spells out the anchor a, in one of its own members or items. */
  ghost predicate Spells(node: Json, a: Anchor) {
    match a
    case Property(h) => node.Obj? && exists hashes :: Field("_sd", Arr(hashes)) in node.fields && Str(h) in hashes
    case Element(h) => node.Arr? && exists x :: x in node.items && IsElementCommitment(x, h)
  }

  ghost predicate Occurs(root: Json, a: Anchor) {
    exists path, node :: At(root, path, node) && Spells(node, a)
  }

  lemma {:induction false} AnchorsOfItemsMember(items: seq<Json>, a: Anchor)
    ensures a in AnchorsOfItems(items) <==>
            exists i :: 0 <= i < |items| &&
              if IsPlaceholder(items[i]) then a == Element(items[i].fields[0].value.s) else a in AnchorsOf(items[i])
  {
    if items != [] {
      var n := |items| - 1;
      AnchorsOfItemsMember(items[..n], a);
      assert forall i :: 0 <= i < n ==> items[..n][i] == items[i];
    }
  }

  lemma {:induction false} AnchorsOfFieldsMember(fields: seq<Field>, a: Anchor)
    ensures a in AnchorsOfFields(fields) <==>
            exists i :: 0 <= i < |fields| &&
              if IsSdList(fields[i]) then a in SdEntries(fields[i].value.items) else a in AnchorsOf(fields[i].value)
  {
    if fields != [] {
      var n := |fields| - 1;
      AnchorsOfFieldsMember(fields[..n], a);
      assert forall i :: 0 <= i < n ==> fields[..n][i] == fields[i];
    }
  }

  lemma PlaceholderShape(item: Json, h: string)
    ensures IsElementCommitment(item, h) <==> IsPlaceholder(item) && item.fields[0].value.s == h
  {
    if IsPlaceholder(item) {
      assert item.fields == [Field(item.fields[0].key, item.fields[0].value)];
    }
  }

  lemma PlaceholderCommits(item: Json)
    ensures IsPlaceholder(item) <==> exists h :: IsElementCommitment(item, h)
  {
    if IsPlaceholder(item) { PlaceholderShape(item, item.fields[0].value.s); }
  }

  lemma {:induction false} OccursHere(root: Json, a: Anchor)
    requires Spells(root, a)
    ensures Occurs(root, a)
  {
    assert At(root, [], root);
  }

  lemma {:induction false} OccursBelow(root: Json, i: nat, child: Json, a: Anchor)
    requires At(root, [i], child) && Occurs(child, a)
    ensures Occurs(root, a)
  {
    var path, node :| At(child, path, node) && Spells(node, a);
    assert ([i] + path)[1..] == path;
    assert [i][1..] == [];
    assert At(root, [i] + path, node);
  }

  /** The walk collects exactly the anchors spelled at some address of the document. */
  lemma {:induction false} WalkFindsExactlyTheOccurrences(root: Json, a: Anchor)
    ensures a in AnchorsOf(root) <==> Occurs(root, a)
  {
    if a in AnchorsOf(root) { WalkIsSound(root, a); }
    if Occurs(root, a) {
      var path, node :| At(root, path, node) && Spells(node, a);
      WalkIsComplete(root, path, node, a);
    }
  }

  lemma {:induction false} WalkIsSound(root: Json, a: Anchor)
    requires a in AnchorsOf(root)
    ensures Occurs(root, a)
    decreases root
  {
    match root
    case Arr(items) =>
      AnchorsOfItemsMember(items, a);
      var i :| 0 <= i < |items| &&
        if IsPlaceholder(items[i]) then a == Element(items[i].fields[0].value.s) else a in AnchorsOf(items[i]);
      if IsPlaceholder(items[i]) {
        assert items[i] in items;
        OccursHere(root, a);
      } else {
        WalkIsSound(items[i], a);
        assert At(items[i], [i][1..], items[i]);
        OccursBelow(root, i, items[i], a);
      }
    case Obj(fields) =>
      AnchorsOfFieldsMember(fields, a);
      var i :| 0 <= i < |fields| &&
        if IsSdList(fields[i]) then a in SdEntries(fields[i].value.items) else a in AnchorsOf(fields[i].value);
      if IsSdList(fields[i]) {
        assert fields[i] in fields;
        OccursHere(root, a);
      } else {
        WalkIsSound(fields[i].value, a);
        assert At(fields[i].value, [i][1..], fields[i].value);
        OccursBelow(root, i, fields[i].value, a);
      }
  }

  lemma {:induction false} WalkIsComplete(root: Json, path: seq<nat>, node: Json, a: Anchor)
    requires At(root, path, node) && Spells(node, a)
    ensures a in AnchorsOf(root)
    decreases path
  {
    match root
    case Arr(items) =>
      AnchorsOfItemsMember(items, a);
      if path != [] {
        PlaceholderCommits(items[path[0]]);
        WalkIsComplete(items[path[0]], path[1..], node, a);
      }
    case Obj(fields) =>
      AnchorsOfFieldsMember(fields, a);
      if path != [] { WalkIsComplete(fields[path[0]].value, path[1..], node, a); }
    case _ =>
  }
}
