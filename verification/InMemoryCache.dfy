/**
 * The bounded cache with per-entry expiry (`InMemoryCache`): least recently used
 * entries leave first, expired entries leave when they are looked up.
 */
module InMemoryCache {
  import opened Options
  import opened ByteStrings
  import opened Sets
  import opened OrderedMap

  function Capacity(maxEntries: int): nat {
    if maxEntries < 0 then 0 else maxEntries
  }

  // ----- One operation -----

  function Evict(m: Entries, maxEntries: int): Entries {
    if |m| > Capacity(maxEntries) then m[|m| - Capacity(maxEntries)..] else m
  }

  function Put(m: Entries, maxEntries: int, k: string, v: Bytes, expiresAt: int): Entries {
    Evict(Delete(m, k) + [Entry(k, v, expiresAt)], maxEntries)
  }

  predicate Hit(m: Entries, k: string, now: int) {
    var e := Find(m, k);
    e.Some? && now <= e.value.expiresAt
  }

  function Touch(m: Entries, k: string, now: int): Entries {
    if Hit(m, k, now) then Delete(m, k) + [Find(m, k).value] else Delete(m, k)
  }

  function Answer(m: Entries, k: string, now: int): Option<Bytes> {
    if Hit(m, k, now) then Some(Find(m, k).value.value) else None
  }

  ghost predicate Sound(m: Entries, maxEntries: int) {
    DistinctKeys(m) && |m| <= Capacity(maxEntries)
  }

  class Cache {
    var entries: Entries
    const maxEntries: int

    ghost predicate Valid()
      reads this
    {
      Sound(entries, maxEntries)
    }

    constructor (maxEntries: int)
      ensures Valid() && entries == [] && this.maxEntries == maxEntries
    {
      this.maxEntries := maxEntries;
      entries := [];
    }

    method Get(key: string, now: int) returns (r: Option<Bytes>)
      requires Valid()
      modifies this
      ensures Valid()
      ensures r == Answer(old(entries), key, now)
      ensures entries == Touch(old(entries), key, now)
    {
      TouchIsSound(entries, maxEntries, key, now);
      var entry := Find(entries, key);
      if entry.None? {
        DeleteAbsent(entries, key);
        return None;
      }
      if now > entry.value.expiresAt {
        entries := Delete(entries, key);
        return None;
      }
      entries := Delete(entries, key);
      entries := entries + [entry.value];
      r := Some(entry.value.value);
    }

    method Set(key: string, value: Bytes, ttlSeconds: int, now: int)
      requires Valid()
      modifies this
      ensures Valid()
      ensures entries == Put(old(entries), maxEntries, key, value, now + ttlSeconds * 1000)
    {
      PutIsSound(entries, maxEntries, key, value, now + ttlSeconds * 1000);
      entries := Delete(entries, key);
      entries := entries + [Entry(key, value, now + ttlSeconds * 1000)];
      EvictOldest();
    }

    /** The eviction loop of set: drops the first key of the map while it is over capacity. */
    method EvictOldest()
      modifies this
      ensures entries == Evict(old(entries), maxEntries)
    {
      ghost var full := entries;
      while |entries| > maxEntries
        invariant |entries| <= |full| && entries == full[|full| - |entries|..]
        invariant |entries| == |full| || |entries| >= maxEntries
        decreases |entries|
      {
        if |entries| == 0 {
          break;
        }
        var oldest := entries[0].key;
        entries := Delete(entries, oldest);
      }
    }
  }

  lemma TouchIsSound(m: Entries, maxEntries: int, k: string, now: int)
    requires Sound(m, maxEntries)
    ensures Sound(Touch(m, k, now), maxEntries)
  {
    DeleteRemovesKey(m, k);
    if Hit(m, k, now) { AppendFresh(Delete(m, k), Find(m, k).value); }
  }

  lemma PutIsSound(m: Entries, maxEntries: int, k: string, v: Bytes, expiresAt: int)
    requires Sound(m, maxEntries)
    ensures Sound(Put(m, maxEntries, k, v, expiresAt), maxEntries)
    ensures |Delete(m, k) + [Entry(k, v, expiresAt)]| <= Capacity(maxEntries) + 1
    ensures DistinctKeys(Delete(m, k) + [Entry(k, v, expiresAt)])
  {
    DeleteRemovesKey(m, k);
    AppendFresh(Delete(m, k), Entry(k, v, expiresAt));
  }

  // ----- Traces of operations -----

  datatype Op =
    | GetOp(key: string, now: int)
    | SetOp(key: string, value: Bytes, ttlSeconds: int, now: int)

  function Step(m: Entries, maxEntries: int, op: Op): Entries {
    match op
    case GetOp(k, now) => Touch(m, k, now)
    case SetOp(k, v, ttl, now) => Put(m, maxEntries, k, v, now + ttl * 1000)
  }

  function Run(m: Entries, maxEntries: int, trace: seq<Op>): Entries {
    if trace == [] then m
    else Step(Run(m, maxEntries, trace[..|trace| - 1]), maxEntries, trace[|trace| - 1])
  }

  lemma StepIsSound(m: Entries, maxEntries: int, op: Op)
    requires Sound(m, maxEntries)
    ensures Sound(Step(m, maxEntries, op), maxEntries)
  {
    match op
    case GetOp(k, now) => TouchIsSound(m, maxEntries, k, now);
    case SetOp(k, v, ttl, now) => PutIsSound(m, maxEntries, k, v, now + ttl * 1000);
  }

  /** No trace of operations ever leaves more than maxEntries entries or a key twice. */
  lemma {:induction false} RunIsSound(m: Entries, maxEntries: int, trace: seq<Op>)
    requires Sound(m, maxEntries)
    ensures Sound(Run(m, maxEntries, trace), maxEntries)
  {
    if trace != [] {
      RunIsSound(m, maxEntries, trace[..|trace| - 1]);
      StepIsSound(Run(m, maxEntries, trace[..|trace| - 1]), maxEntries, trace[|trace| - 1]);
    }
  }

  // ----- Two capacities -----

  /**
   * The relation between a small and a large cache that saw the same operations. The last
   * conjunct is what makes it inductive: the large cache is never full while the small one is not.
   */
  ghost predicate Includes(small: Entries, large: Entries, n: int, m: int) {
    && Sound(small, n) && Sound(large, m) && Subsequence(small, large)
    && |large| - |small| <= Capacity(m) - Capacity(n)
  }

  lemma TouchKeepsInclusion(small: Entries, large: Entries, n: int, m: int, k: string, now: int)
    requires n <= m && Includes(small, large, n, m)
    ensures Includes(Touch(small, k, now), Touch(large, k, now), n, m)
  {
    SubsequenceShares(small, large, k);
    TouchIsSound(small, n, k, now);
    TouchIsSound(large, m, k, now);
    SubsequenceDelete(small, large, k);
    DeleteRemovesKey(small, k);
    DeleteRemovesKey(large, k);
    if Hit(large, k, now) {
      SubsequenceAppend(Delete(small, k), Delete(large, k), Find(large, k).value);
    }
  }

  lemma PutKeepsInclusion(small: Entries, large: Entries, n: int, m: int, k: string, v: Bytes, expiresAt: int)
    requires n <= m && Includes(small, large, n, m)
    ensures Includes(Put(small, n, k, v, expiresAt), Put(large, m, k, v, expiresAt), n, m)
  {
    SubsequenceShares(small, large, k);
    PutIsSound(small, n, k, v, expiresAt);
    PutIsSound(large, m, k, v, expiresAt);
    SubsequenceDelete(small, large, k);
    DeleteRemovesKey(small, k);
    DeleteRemovesKey(large, k);
    var e := Entry(k, v, expiresAt);
    var small', large' := Delete(small, k) + [e], Delete(large, k) + [e];
    SubsequenceAppend(Delete(small, k), Delete(large, k), e);
    if |large'| > Capacity(m) {
      SubsequenceDropHeads(small', large');
    } else if |small'| > Capacity(n) {
      SubsequenceDropHeadOfSmall(small', large');
    }
  }

  /**
   * Capacity monotonicity: after the same operations at the same times, the smaller cache is
   * the larger one with entries left out, so each of its hits is the same hit in the larger one.
   */
  lemma {:induction false} LargerCacheHitsMore(n: int, m: int, trace: seq<Op>)
    requires n <= m
    ensures Includes(Run([], n, trace), Run([], m, trace), n, m)
    ensures forall k, now :: Answer(Run([], n, trace), k, now).Some? ==>
      Answer(Run([], m, trace), k, now) == Answer(Run([], n, trace), k, now)
  {
    var small, large := Run([], n, trace), Run([], m, trace);
    if trace != [] {
      var before := trace[..|trace| - 1];
      LargerCacheHitsMore(n, m, before);
      match trace[|trace| - 1]
      case GetOp(k, now) =>
        TouchKeepsInclusion(Run([], n, before), Run([], m, before), n, m, k, now);
      case SetOp(k, v, ttl, now) =>
        PutKeepsInclusion(Run([], n, before), Run([], m, before), n, m, k, v, now + ttl * 1000);
    }
    forall k, now | Answer(small, k, now).Some?
      ensures Answer(large, k, now) == Answer(small, k, now)
    {
      SubsequenceShares(small, large, k);
    }
  }

  // ----- What an entry is, and where it stands -----

  /** Whether the operation moves or puts its key to the recent end of m. */
  predicate Touches(m: Entries, op: Op) {
    op.SetOp? || Hit(m, op.key, op.now)
  }

  /** The entry written by the last set of k in the trace. */
  function LastSet(trace: seq<Op>, k: string): Option<Entry> {
    if trace == [] then None
    else
      var op := trace[|trace| - 1];
      if op.SetOp? && op.key == k then Some(Entry(k, op.value, op.now + op.ttlSeconds * 1000))
      else LastSet(trace[..|trace| - 1], k)
  }

  /** One plus the position of the last operation that touched k; 0 when none did. */
  function LastTouch(maxEntries: int, trace: seq<Op>, k: string): nat {
    if trace == [] then 0
    else
      var before := trace[..|trace| - 1];
      if trace[|trace| - 1].key == k && Touches(Run([], maxEntries, before), trace[|trace| - 1]) then |trace|
      else LastTouch(maxEntries, before, k)
  }

  ghost predicate RanksBelow(rank: string -> nat, k: string, m: Entries) {
    forall j :: j in Keys(m) ==> rank(k) < rank(j)
  }

  ghost predicate SortedBy(rank: string -> nat, m: Entries) {
    m == [] || (RanksBelow(rank, m[0].key, m[1..]) && SortedBy(rank, m[1..]))
  }

  lemma {:induction false} SortedDelete(rank: string -> nat, m: Entries, k: string)
    requires DistinctKeys(m) && SortedBy(rank, m)
    ensures SortedBy(rank, Delete(m, k))
  {
    if m != [] && m[0].key != k {
      SortedDelete(rank, m[1..], k);
      DeleteRemovesKey(m[1..], k);
      assert ([m[0]] + Delete(m[1..], k))[1..] == Delete(m[1..], k);
    }
  }

  lemma {:induction false} SortedAppend(rank: string -> nat, m: Entries, e: Entry)
    requires DistinctKeys(m) && SortedBy(rank, m) && e.key !in Keys(m)
    requires forall j :: j in Keys(m) ==> rank(j) < rank(e.key)
    ensures SortedBy(rank, m + [e])
  {
    if m == [] {
      assert m + [e] == [e];
    } else {
      SortedAppend(rank, m[1..], e);
      AppendFresh(m[1..], e);
      assert (m + [e])[1..] == m[1..] + [e];
    }
  }

  lemma {:induction false} SortedSameRank(rank: string -> nat, rank': string -> nat, m: Entries)
    requires SortedBy(rank, m) && forall j :: j in Keys(m) ==> rank'(j) == rank(j)
    ensures SortedBy(rank', m)
  {
    if m != [] { SortedSameRank(rank, rank', m[1..]); }
  }

  lemma {:induction false} LastTouchBound(maxEntries: int, trace: seq<Op>, k: string)
    ensures LastTouch(maxEntries, trace, k) <= |trace|
  {
    if trace != [] { LastTouchBound(maxEntries, trace[..|trace| - 1], k); }
  }

  /** The entry a touching operation puts at the recent end. */
  function Moved(m: Entries, op: Op): Entry
    requires Touches(m, op)
  {
    match op
    case GetOp(k, _) => Find(m, k).value
    case SetOp(k, v, ttl, now) => Entry(k, v, now + ttl * 1000)
  }

  function Placed(m: Entries, op: Op): Entries
    requires Touches(m, op)
  {
    Delete(m, op.key) + [Moved(m, op)]
  }

  lemma PlacedShape(m: Entries, op: Op)
    requires DistinctKeys(m) && Touches(m, op)
    ensures DistinctKeys(Placed(m, op)) && |Placed(m, op)| == |m| + if op.key in Keys(m) then 0 else 1
    ensures Find(Placed(m, op), op.key) == Some(Moved(m, op)) && Moved(m, op).key == op.key
    ensures forall j :: j != op.key ==> Find(Placed(m, op), j) == Find(m, j)
  {
    DeleteRemovesKey(m, op.key);
    AppendFresh(Delete(m, op.key), Moved(m, op));
  }

  /** Every operation deletes its key, perhaps appends its entry, and perhaps drops the head. */
  lemma StepShape(m: Entries, maxEntries: int, op: Op)
    requires Sound(m, maxEntries)
    ensures !Touches(m, op) ==> Step(m, maxEntries, op) == Delete(m, op.key)
    ensures Touches(m, op) ==>
      Step(m, maxEntries, op) == Placed(m, op) ||
      (|Placed(m, op)| == Capacity(maxEntries) + 1 && Step(m, maxEntries, op) == Placed(m, op)[1..])
  {
    if Touches(m, op) {
      PlacedShape(m, op);
    }
  }

  lemma StepSorted(m: Entries, maxEntries: int, op: Op, rank: string -> nat, rank': string -> nat)
    requires Sound(m, maxEntries) && SortedBy(rank, m)
    requires forall j :: j != op.key ==> rank'(j) == rank(j)
    requires Touches(m, op) ==> forall j :: j in Keys(m) ==> rank(j) < rank'(op.key)
    ensures SortedBy(rank', Step(m, maxEntries, op))
  {
    StepShape(m, maxEntries, op);
    DeleteRemovesKey(m, op.key);
    SortedDelete(rank, m, op.key);
    SortedSameRank(rank, rank', Delete(m, op.key));
    if Touches(m, op) {
      SortedAppend(rank', Delete(m, op.key), Moved(m, op));
    }
  }

  lemma {:induction false} MapIsSortedByRecency(maxEntries: int, trace: seq<Op>)
    ensures SortedBy(k => LastTouch(maxEntries, trace, k), Run([], maxEntries, trace))
  {
    if trace != [] {
      var before, op := trace[..|trace| - 1], trace[|trace| - 1];
      var m := Run([], maxEntries, before);
      MapIsSortedByRecency(maxEntries, before);
      RunIsSound([], maxEntries, before);
      forall j { LastTouchBound(maxEntries, before, j); }
      StepSorted(m, maxEntries, op, k => LastTouch(maxEntries, before, k), k => LastTouch(maxEntries, trace, k));
    }
  }

  /** After one operation a key's entry is the one just moved, or the one it had. */
  lemma StepEntry(m: Entries, maxEntries: int, op: Op, k: string)
    requires Sound(m, maxEntries) && k in Keys(Step(m, maxEntries, op))
    ensures if k == op.key then Touches(m, op) && Find(Step(m, maxEntries, op), k) == Some(Moved(m, op))
            else Find(Step(m, maxEntries, op), k) == Find(m, k)
  {
    StepShape(m, maxEntries, op);
    DeleteRemovesKey(m, op.key);
    if Touches(m, op) {
      PlacedShape(m, op);
      assert k != op.key ==> Find(Placed(m, op), k) == Find(m, k);
    } else {
      assert k != op.key ==> Find(Delete(m, op.key), k) == Find(m, k);
    }
  }

  lemma {:induction false} EntriesComeFromLastSet(maxEntries: int, trace: seq<Op>, k: string)
    requires k in Keys(Run([], maxEntries, trace))
    ensures Find(Run([], maxEntries, trace), k) == LastSet(trace, k)
  {
    if trace != [] {
      var before, op := trace[..|trace| - 1], trace[|trace| - 1];
      var m := Run([], maxEntries, before);
      RunIsSound([], maxEntries, before);
      StepEntry(m, maxEntries, op, k);
      if !(op.SetOp? && op.key == k) {
        assert k in Keys(m);
        EntriesComeFromLastSet(maxEntries, before, k);
      }
    }
  }

  /**
   * Refinement to recency: the map lists the surviving keys by increasing time of their
   * last touch, and every entry is the one written by the last set of its key.
   */
  lemma MapIsRecencyList(maxEntries: int, trace: seq<Op>)
    ensures SortedBy(k => LastTouch(maxEntries, trace, k), Run([], maxEntries, trace))
    ensures forall k :: k in Keys(Run([], maxEntries, trace)) ==>
      Find(Run([], maxEntries, trace), k) == LastSet(trace, k)
  {
    MapIsSortedByRecency(maxEntries, trace);
    forall k | k in Keys(Run([], maxEntries, trace))
      ensures Find(Run([], maxEntries, trace), k) == LastSet(trace, k)
    {
      EntriesComeFromLastSet(maxEntries, trace, k);
    }
  }

  /** A hit returns the value of the last set of the key, and only until that set's expiry. */
  lemma HitReturnsLastSet(maxEntries: int, trace: seq<Op>, k: string, now: int)
    requires Answer(Run([], maxEntries, trace), k, now).Some?
    ensures LastSet(trace, k).Some?
    ensures Answer(Run([], maxEntries, trace), k, now) == Some(LastSet(trace, k).value.value)
    ensures now <= LastSet(trace, k).value.expiresAt
  {
    MapIsRecencyList(maxEntries, trace);
  }

  // ----- Survival -----

  /** The keys that would outlive k: those listed after it. */
  ghost function Younger(m: Entries, k: string): set<string> {
    if m == [] then {}
    else if m[0].key == k then Keys(m[1..])
    else Younger(m[1..], k)
  }

  /** The keys touched while the trace runs from m. */
  ghost function TouchedKeys(m: Entries, maxEntries: int, trace: seq<Op>): set<string> {
    if trace == [] then {}
    else
      var before, op := trace[..|trace| - 1], trace[|trace| - 1];
      TouchedKeys(m, maxEntries, before) + if Touches(Run(m, maxEntries, before), op) then {op.key} else {}
  }

  lemma {:induction false} YoungerDelete(m: Entries, k: string, j: string)
    requires DistinctKeys(m) && k in Keys(m) && j != k
    ensures Younger(Delete(m, j), k) == Younger(m, k) - {j}
  {
    if m[0].key == k {
      DeleteRemovesKey(m[1..], j);
      assert ([m[0]] + Delete(m[1..], j))[1..] == Delete(m[1..], j);
    } else if m[0].key == j {
      YoungerAreKeys(m[1..], k);
    } else {
      YoungerDelete(m[1..], k, j);
      assert ([m[0]] + Delete(m[1..], j))[1..] == Delete(m[1..], j);
    }
  }

  lemma {:induction false} YoungerAreKeys(m: Entries, k: string)
    ensures Younger(m, k) <= Keys(m)
  {
    if m != [] { YoungerAreKeys(m[1..], k); }
  }

  lemma {:induction false} YoungerAppend(m: Entries, k: string, e: Entry)
    requires DistinctKeys(m) && k in Keys(m) && e.key !in Keys(m)
    ensures Younger(m + [e], k) == Younger(m, k) + {e.key}
  {
    assert (m + [e])[1..] == m[1..] + [e];
    if m[0].key == k {
      AppendFresh(m[1..], e);
    } else {
      YoungerAppend(m[1..], k, e);
    }
  }

  /** An operation that touches another key makes that key younger than k, and k stays while there is room. */
  lemma SurvivesTouch(m: Entries, maxEntries: int, op: Op, k: string)
    requires Sound(m, maxEntries) && k in Keys(m) && op.key != k && Touches(m, op)
    requires |Younger(m, k) + {op.key}| < maxEntries
    ensures Find(Step(m, maxEntries, op), k) == Find(m, k)
    ensures Younger(Step(m, maxEntries, op), k) == Younger(m, k) + {op.key}
  {
    StepShape(m, maxEntries, op);
    PlacedShape(m, op);
    DeleteRemovesKey(m, op.key);
    YoungerDelete(m, k, op.key);
    YoungerAppend(Delete(m, op.key), k, Moved(m, op));
    var m' := Placed(m, op);
    assert Younger(m', k) == Younger(m, k) + {op.key};
    if Step(m, maxEntries, op) != m' {
      KeysSize(m'[1..]);
    }
  }

  lemma SurvivesMiss(m: Entries, maxEntries: int, op: Op, k: string)
    requires Sound(m, maxEntries) && k in Keys(m) && op.key != k && !Touches(m, op)
    ensures Find(Step(m, maxEntries, op), k) == Find(m, k)
    ensures Younger(Step(m, maxEntries, op), k) == Younger(m, k) - {op.key}
  {
    DeleteRemovesKey(m, op.key);
    YoungerDelete(m, k, op.key);
  }

  lemma {:induction false} LastIsYoungest(m: Entries)
    requires DistinctKeys(m) && m != []
    ensures Find(m, m[|m| - 1].key) == Some(m[|m| - 1])
    ensures Younger(m, m[|m| - 1].key) == {}
  {
    if |m| > 1 {
      LastIsYoungest(m[1..]);
      assert m[1..][|m| - 2] == m[|m| - 1];
    }
  }

  lemma TouchedWhilePresent(m: Entries, maxEntries: int, op: Op, k: string)
    requires Sound(m, maxEntries) && k in Keys(m) && op.key != k && Touches(m, op)
    requires k in Keys(Step(m, maxEntries, op))
    ensures Younger(Step(m, maxEntries, op), k) == Younger(m, k) + {op.key}
  {
    StepShape(m, maxEntries, op);
    PlacedShape(m, op);
    DeleteRemovesKey(m, op.key);
    YoungerDelete(m, k, op.key);
    YoungerAppend(Delete(m, op.key), k, Moved(m, op));
    assert Younger(Placed(m, op), k) == Younger(m, k) + {op.key};
  }

  lemma GoneStaysGone(m: Entries, maxEntries: int, op: Op, k: string)
    requires Sound(m, maxEntries) && k !in Keys(m) && op.key != k
    ensures k !in Keys(Step(m, maxEntries, op))
  {
    StepShape(m, maxEntries, op);
    DeleteRemovesKey(m, op.key);
    if Touches(m, op) {
      PlacedShape(m, op);
      assert Find(Placed(m, op), k) == Find(m, k);
    } else {
      assert Find(Delete(m, op.key), k) == Find(m, k);
    }
  }

  lemma {:induction false} YoungerAreFewer(m: Entries, k: string)
    requires DistinctKeys(m) && k in Keys(m)
    ensures |Younger(m, k)| < |m|
  {
    if m[0].key == k { KeysSize(m[1..]); } else { YoungerAreFewer(m[1..], k); }
  }

  /**
   * The keys touched while the trace runs from m and not removed since: a lookup that finds an expired entry
   * removes it.
   */
  ghost function StillTouched(m: Entries, maxEntries: int, trace: seq<Op>): set<string> {
    if trace == [] then {}
    else
      var before, op := trace[..|trace| - 1], trace[|trace| - 1];
      if Touches(Run(m, maxEntries, before), op) then StillTouched(m, maxEntries, before) + {op.key}
      else StillTouched(m, maxEntries, before) - {op.key}
  }

  /** At no time, from the start to the end of the trace, were as many as maxEntries keys touched. */
  ghost predicate AlwaysRoom(m: Entries, maxEntries: int, trace: seq<Op>) {
    && |StillTouched(m, maxEntries, trace)| < maxEntries
    && (trace != [] ==> AlwaysRoom(m, maxEntries, trace[..|trace| - 1]))
  }

  /** That is said of every part of the trace from its start on. */
  lemma {:induction false} RoomAtEveryTime(m: Entries, maxEntries: int, trace: seq<Op>, i: nat)
    requires AlwaysRoom(m, maxEntries, trace) && i <= |trace|
    ensures |StillTouched(m, maxEntries, trace[..i])| < maxEntries
    decreases |trace|
  {
    if i == |trace| {
      assert trace[..i] == trace;
    } else {
      var before := trace[..|trace| - 1];
      RoomAtEveryTime(m, maxEntries, before, i);
      assert before[..i] == trace[..i];
    }
  }

  lemma {:induction false} CrowdedAtSomeTime(m: Entries, maxEntries: int, trace: seq<Op>) returns (i: nat)
    requires !AlwaysRoom(m, maxEntries, trace)
    ensures i <= |trace| && |StillTouched(m, maxEntries, trace[..i])| >= maxEntries
  {
    if |StillTouched(m, maxEntries, trace)| >= maxEntries {
      i := |trace|;
      assert trace[..i] == trace;
    } else {
      var before := trace[..|trace| - 1];
      i := CrowdedAtSomeTime(m, maxEntries, before);
      assert before[..i] == trace[..i];
    }
  }

  /** The key stays exactly while there is room, and the keys that would outlive it are those still touched. */
  lemma {:induction false} KeyStaysWhileRoom(m: Entries, maxEntries: int, trace: seq<Op>, e: Entry)
    requires Sound(m, maxEntries) && m != [] && m[|m| - 1] == e
    requires forall op :: op in trace ==> op.key != e.key
    ensures e.key in Keys(Run(m, maxEntries, trace)) <==> AlwaysRoom(m, maxEntries, trace)
    ensures e.key in Keys(Run(m, maxEntries, trace)) ==>
      && Find(Run(m, maxEntries, trace), e.key) == Some(e)
      && Younger(Run(m, maxEntries, trace), e.key) == StillTouched(m, maxEntries, trace)
  {
    if trace == [] {
      LastIsYoungest(m);
    } else {
      var before, op := trace[..|trace| - 1], trace[|trace| - 1];
      var m' := Run(m, maxEntries, before);
      KeyStaysWhileRoom(m, maxEntries, before, e);
      RunIsSound(m, maxEntries, before);
      if e.key in Keys(m') {
        StepCrowds(m', maxEntries, op, e.key);
        if !Touches(m', op) {
          SubsetSize(StillTouched(m, maxEntries, trace), StillTouched(m, maxEntries, before));
        }
      } else {
        GoneStaysGone(m', maxEntries, op, e.key);
      }
    }
  }

  /**
   * The key leaves exactly when, at some time of the trace, as many other keys as the capacity have been touched
   * and not removed since; as long as it stays, it keeps its entry, and those keys are the ones listed after it.
   */
  lemma KeyLeavesExactlyWhenCrowdedOut(m: Entries, maxEntries: int, trace: seq<Op>, e: Entry)
    requires Sound(m, maxEntries) && m != [] && m[|m| - 1] == e
    requires forall op :: op in trace ==> op.key != e.key
    ensures e.key in Keys(Run(m, maxEntries, trace)) <==>
      forall i :: 0 <= i <= |trace| ==> |StillTouched(m, maxEntries, trace[..i])| < maxEntries
    ensures e.key in Keys(Run(m, maxEntries, trace)) ==>
      && Find(Run(m, maxEntries, trace), e.key) == Some(e)
      && Younger(Run(m, maxEntries, trace), e.key) == StillTouched(m, maxEntries, trace)
  {
    KeyStaysWhileRoom(m, maxEntries, trace, e);
    RoomMeans(m, maxEntries, trace);
  }

  lemma {:induction false} RoomMeans(m: Entries, maxEntries: int, trace: seq<Op>)
    ensures AlwaysRoom(m, maxEntries, trace) <==>
      forall i :: 0 <= i <= |trace| ==> |StillTouched(m, maxEntries, trace[..i])| < maxEntries
  {
    if AlwaysRoom(m, maxEntries, trace) {
      forall i | 0 <= i <= |trace|
        ensures |StillTouched(m, maxEntries, trace[..i])| < maxEntries
      {
        RoomAtEveryTime(m, maxEntries, trace, i);
      }
    } else {
      var i := CrowdedAtSomeTime(m, maxEntries, trace);
    }
  }

  /** One operation on another key: k goes exactly when a touch makes the keys younger than it too many. */
  lemma StepCrowds(m: Entries, maxEntries: int, op: Op, k: string)
    requires Sound(m, maxEntries) && k in Keys(m) && op.key != k
    ensures var m' := Step(m, maxEntries, op);
      var younger := if Touches(m, op) then Younger(m, k) + {op.key} else Younger(m, k) - {op.key};
      && (k in Keys(m') <==> !Touches(m, op) || |younger| < maxEntries)
      && (k in Keys(m') ==> Find(m', k) == Find(m, k) && Younger(m', k) == younger)
  {
    if !Touches(m, op) {
      SurvivesMiss(m, maxEntries, op, k);
    } else if |Younger(m, k) + {op.key}| < maxEntries {
      SurvivesTouch(m, maxEntries, op, k);
    } else if k in Keys(Step(m, maxEntries, op)) {
      StepIsSound(m, maxEntries, op);
      TouchedWhilePresent(m, maxEntries, op, k);
      YoungerAreFewer(Step(m, maxEntries, op), k);
      assert false;
    }
  }

  lemma {:induction false} StillTouchedWereTouched(m: Entries, maxEntries: int, trace: seq<Op>)
    ensures StillTouched(m, maxEntries, trace) <= TouchedKeys(m, maxEntries, trace)
  {
    if trace != [] { StillTouchedWereTouched(m, maxEntries, trace[..|trace| - 1]); }
  }

  /** Fewer than maxEntries keys touched at all leave room at every time. */
  lemma {:induction false} FewTouchesLeaveRoom(m: Entries, maxEntries: int, trace: seq<Op>)
    requires |TouchedKeys(m, maxEntries, trace)| < maxEntries
    ensures AlwaysRoom(m, maxEntries, trace)
  {
    StillTouchedWereTouched(m, maxEntries, trace);
    SubsetSize(StillTouched(m, maxEntries, trace), TouchedKeys(m, maxEntries, trace));
    if trace != [] {
      var before := trace[..|trace| - 1];
      SubsetSize(TouchedKeys(m, maxEntries, before), TouchedKeys(m, maxEntries, trace));
      FewTouchesLeaveRoom(m, maxEntries, before);
    }
  }

  /**
   * Survival: after a key was touched, it stays with its entry while fewer than maxEntries
   * distinct other keys are touched, so a lookup before its expiry is a hit.
   */
  lemma RecentKeySurvives(m: Entries, maxEntries: int, trace: seq<Op>, e: Entry)
    requires Sound(m, maxEntries) && m != [] && m[|m| - 1] == e
    requires forall op :: op in trace ==> op.key != e.key
    requires |TouchedKeys(m, maxEntries, trace)| < maxEntries
    ensures Find(Run(m, maxEntries, trace), e.key) == Some(e)
    ensures forall now :: now <= e.expiresAt ==> Answer(Run(m, maxEntries, trace), e.key, now) == Some(e.value)
  {
    FewTouchesLeaveRoom(m, maxEntries, trace);
    KeyStaysWhileRoom(m, maxEntries, trace, e);
  }

  /** Nothing looked up during the trace was found expired. */
  ghost predicate NoExpiredLookup(m: Entries, maxEntries: int, trace: seq<Op>) {
    forall i :: 0 <= i < |trace| && trace[i].GetOp? && trace[i].key in Keys(Run(m, maxEntries, trace[..i])) ==>
      Hit(Run(m, maxEntries, trace[..i]), trace[i].key, trace[i].now)
  }

  lemma EarlierLookups(m: Entries, maxEntries: int, trace: seq<Op>)
    requires trace != [] && NoExpiredLookup(m, maxEntries, trace)
    ensures var before, op := trace[..|trace| - 1], trace[|trace| - 1];
      NoExpiredLookup(m, maxEntries, before) &&
      (op.GetOp? && op.key in Keys(Run(m, maxEntries, before)) ==> Hit(Run(m, maxEntries, before), op.key, op.now))
  {
    var before := trace[..|trace| - 1];
    assert forall i :: 0 <= i < |before| ==> trace[..i] == before[..i];
  }

  /** While the key stays and no lookup finds an expired entry, no touched key is removed. */
  lemma {:induction false} NothingIsRemoved(m: Entries, maxEntries: int, trace: seq<Op>, e: Entry)
    requires Sound(m, maxEntries) && m != [] && m[|m| - 1] == e
    requires forall op :: op in trace ==> op.key != e.key
    requires NoExpiredLookup(m, maxEntries, trace) && AlwaysRoom(m, maxEntries, trace)
    ensures StillTouched(m, maxEntries, trace) == TouchedKeys(m, maxEntries, trace)
  {
    if trace != [] {
      var before := trace[..|trace| - 1];
      EarlierLookups(m, maxEntries, trace);
      NothingIsRemoved(m, maxEntries, before, e);
      KeyStaysWhileRoom(m, maxEntries, before, e);
      YoungerAreKeys(Run(m, maxEntries, before), e.key);
    }
  }

  /** With no lookup of an expired entry, the key leaves exactly when maxEntries other keys were touched. */
  lemma CrowdedOutByTouchedKeys(m: Entries, maxEntries: int, trace: seq<Op>, e: Entry)
    requires Sound(m, maxEntries) && m != [] && m[|m| - 1] == e
    requires forall op :: op in trace ==> op.key != e.key
    requires NoExpiredLookup(m, maxEntries, trace)
    ensures e.key in Keys(Run(m, maxEntries, trace)) <==> |TouchedKeys(m, maxEntries, trace)| < maxEntries
  {
    KeyStaysWhileRoom(m, maxEntries, trace, e);
    if AlwaysRoom(m, maxEntries, trace) {
      NothingIsRemoved(m, maxEntries, trace, e);
    }
    if |TouchedKeys(m, maxEntries, trace)| < maxEntries { FewTouchesLeaveRoom(m, maxEntries, trace); }
  }
}
