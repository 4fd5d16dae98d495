/**
 * A JavaScript Map as its list of entries in insertion order. The head of the list
 * is the key that `map.keys().next()` yields.
 */
module OrderedMap {
  import opened Options
  import opened ByteStrings

  datatype Entry = Entry(key: string, value: Bytes, expiresAt: int)

  type Entries = seq<Entry>

  ghost function Keys(m: Entries): set<string> {
    if m == [] then {} else {m[0].key} + Keys(m[1..])
  }

  ghost predicate DistinctKeys(m: Entries) {
    m == [] || (m[0].key !in Keys(m[1..]) && DistinctKeys(m[1..]))
  }

  function Find(m: Entries, k: string): (r: Option<Entry>)
    ensures r.Some? <==> k in Keys(m)
    ensures r.Some? ==> r.value.key == k
  {
    if m == [] then None
    else if m[0].key == k then Some(m[0])
    else Find(m[1..], k)
  }

  function Delete(m: Entries, k: string): Entries {
    if m == [] then []
    else if m[0].key == k then m[1..]
    else [m[0]] + Delete(m[1..], k)
  }

  lemma {:induction false} DeleteAbsent(m: Entries, k: string)
    requires k !in Keys(m)
    ensures Delete(m, k) == m
  {
    if m != [] { DeleteAbsent(m[1..], k); }
  }

  /** delete removes the one entry of the key and keeps every other entry findable. */
  lemma {:induction false} DeleteRemovesKey(m: Entries, k: string)
    requires DistinctKeys(m)
    ensures DistinctKeys(Delete(m, k)) && Keys(Delete(m, k)) == Keys(m) - {k}
    ensures |Delete(m, k)| == |m| - if k in Keys(m) then 1 else 0
    ensures forall j :: j != k ==> Find(Delete(m, k), j) == Find(m, j)
  {
    if m != [] {
      DeleteRemovesKey(m[1..], k);
      assert m[0].key != k ==> ([m[0]] + Delete(m[1..], k))[1..] == Delete(m[1..], k);
    }
  }

  /** An entry added under a fresh key goes to the end. */
  lemma {:induction false} AppendFresh(m: Entries, e: Entry)
    requires DistinctKeys(m) && e.key !in Keys(m)
    ensures DistinctKeys(m + [e]) && Keys(m + [e]) == Keys(m) + {e.key}
    ensures Find(m + [e], e.key) == Some(e)
    ensures forall j :: j != e.key ==> Find(m + [e], j) == Find(m, j)
  {
    if m == [] {
      assert m + [e] == [e];
    } else {
      AppendFresh(m[1..], e);
      assert (m + [e])[1..] == m[1..] + [e];
    }
  }

  lemma {:induction false} KeysSize(m: Entries)
    requires DistinctKeys(m)
    ensures |Keys(m)| == |m|
  {
    if m != [] { KeysSize(m[1..]); }
  }

  // ----- Leaving entries out -----

  /** The entries of m whose key is in ks, in the order of m. */
  ghost function Keep(m: Entries, ks: set<string>): Entries {
    if m == [] then []
    else if m[0].key in ks then [m[0]] + Keep(m[1..], ks)
    else Keep(m[1..], ks)
  }

  /** small is large with some entries left out: same entries, same order. */
  ghost predicate Subsequence(small: Entries, large: Entries) {
    small == Keep(large, Keys(small))
  }

  lemma {:induction false} KeepBasics(m: Entries, ks: set<string>)
    requires DistinctKeys(m)
    ensures Keys(Keep(m, ks)) == Keys(m) * ks && DistinctKeys(Keep(m, ks))
    ensures forall k :: k in ks ==> Find(Keep(m, ks), k) == Find(m, k)
  {
    if m != [] {
      KeepBasics(m[1..], ks);
      assert m[0].key in ks ==> ([m[0]] + Keep(m[1..], ks))[1..] == Keep(m[1..], ks);
    }
  }

  lemma {:induction false} KeepAppend(m: Entries, e: Entry, ks: set<string>)
    ensures Keep(m + [e], ks) == Keep(m, ks) + if e.key in ks then [e] else []
  {
    if m == [] {
      assert m + [e] == [e];
    } else {
      assert (m + [e])[1..] == m[1..] + [e];
      KeepAppend(m[1..], e, ks);
    }
  }

  lemma {:induction false} KeepSame(m: Entries, ks: set<string>, ks': set<string>)
    requires forall k :: k in Keys(m) ==> (k in ks <==> k in ks')
    ensures Keep(m, ks) == Keep(m, ks')
  {
    if m != [] { KeepSame(m[1..], ks, ks'); }
  }

  lemma {:induction false} KeepDelete(m: Entries, ks: set<string>, k: string)
    requires DistinctKeys(m)
    ensures Delete(Keep(m, ks), k) == Keep(Delete(m, k), ks) == Keep(m, ks - {k})
  {
    if m != [] {
      var rest := Keep(m[1..], ks);
      KeepDelete(m[1..], ks, k);
      if m[0].key == k {
        KeepSame(m[1..], ks, ks - {k});
        KeepBasics(m[1..], ks);
        DeleteAbsent(rest, k);
        assert ([m[0]] + rest)[1..] == rest;
      } else {
        assert ([m[0]] + Delete(m[1..], k))[1..] == Delete(m[1..], k);
        assert ([m[0]] + rest)[1..] == rest;
      }
    }
  }

  lemma SubsequenceShares(small: Entries, large: Entries, k: string)
    requires DistinctKeys(large) && Subsequence(small, large)
    ensures DistinctKeys(small) && Keys(small) <= Keys(large)
    ensures k in Keys(small) ==> Find(small, k) == Find(large, k)
  {
    KeepBasics(large, Keys(small));
  }

  lemma SubsequenceDelete(small: Entries, large: Entries, k: string)
    requires DistinctKeys(large) && Subsequence(small, large)
    ensures Subsequence(Delete(small, k), Delete(large, k))
  {
    SubsequenceShares(small, large, k);
    KeepDelete(large, Keys(small), k);
    DeleteRemovesKey(small, k);
    DeleteRemovesKey(large, k);
    KeepSame(Delete(large, k), Keys(small), Keys(small) - {k});
  }

  lemma SubsequenceAppend(small: Entries, large: Entries, e: Entry)
    requires DistinctKeys(large) && Subsequence(small, large) && e.key !in Keys(large)
    ensures Subsequence(small + [e], large + [e])
    ensures Subsequence(small, large + [e])
  {
    SubsequenceShares(small, large, e.key);
    AppendFresh(small, e);
    KeepAppend(large, e, Keys(small));
    KeepAppend(large, e, Keys(small) + {e.key});
    KeepSame(large, Keys(small), Keys(small) + {e.key});
  }

  lemma SubsequenceDropHeadOfSmall(small: Entries, large: Entries)
    requires DistinctKeys(large) && Subsequence(small, large) && small != []
    ensures Subsequence(small[1..], large)
  {
    var k := small[0].key;
    SubsequenceShares(small, large, k);
    KeepDelete(large, Keys(small), k);
    assert Keys(small[1..]) == Keys(small) - {k};
  }

  /** When both lists lose their head, the small one stays a subsequence. */
  lemma SubsequenceDropHeads(small: Entries, large: Entries)
    requires DistinctKeys(large) && Subsequence(small, large) && small != [] && large != []
    ensures Subsequence(small[1..], large[1..])
  {
    if large[0].key in Keys(small) {
      SubsequenceShares(small, large, large[0].key);
      assert small[1..] == Keep(large[1..], Keys(small));
      KeepSame(large[1..], Keys(small), Keys(small[1..]));
    } else {
      assert Subsequence(small, large[1..]);
      SubsequenceDropHeadOfSmall(small, large[1..]);
    }
  }
}
