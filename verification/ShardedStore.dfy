/** The in-memory store: sixteen shards of persistent maps with a byte counter each,
    refining one flat map. */
module ShardedStore {
  import opened Wrappers
  import opened ByteStrings
  import opened FlatMaps

  /** `SHARDS`. */
  const SHARDS: nat := 16

  /** What `snapshot` captures. */
  datatype SnapshotData = SnapshotData(
    id: nat,
    parent: Option<nat>,
    sizeBytes: nat,
    shardBytes: seq<nat>,
    shards: seq<NsMap>)

  function Sum(s: seq<nat>): nat {
    if s == [] then 0 else s[0] + Sum(s[1..])
  }

  // ---------------------------------------------------------- shards as one map

  /** Every namespace is in its own shard, and none is empty. */
  ghost predicate Sharded(shardOf: string -> nat, shards: seq<NsMap>) {
    && |shards| == SHARDS
    && (forall ns :: shardOf(ns) < SHARDS)
    && (forall i, ns :: 0 <= i < SHARDS && ns in shards[i] ==> shardOf(ns) == i)
    && (forall i :: 0 <= i < SHARDS ==> NoEmpty(shards[i]))
  }

  /** Each counter is the total length of its shard's values. */
  ghost predicate Counted(shards: seq<NsMap>, shardBytes: seq<nat>) {
    |shardBytes| == |shards| && forall i :: 0 <= i < |shards| ==> shardBytes[i] == SumLen(Flatten(shards[i]))
  }

  /** The flat view of all the shards. */
  ghost function Contents(shards: seq<NsMap>): Flat {
    if shards == [] then map[] else Flatten(shards[0]) + Contents(shards[1..])
  }

  /** A pair is looked up in the shard of its namespace. */
  function At(shardOf: string -> nat, shards: seq<NsMap>, p: Pair): Option<Bytes>
    requires shardOf(p.0) < |shards|
  {
    Look(shards[shardOf(p.0)], p)
  }

  lemma {:induction false} ContentsAtIndex(shards: seq<NsMap>, p: Pair, i: nat)
    requires i < |shards|
    requires forall j :: 0 <= j < |shards| && j != i ==> p.0 !in shards[j]
    ensures Get(Contents(shards), p) == Get(Flatten(shards[i]), p)
  {
    FlattenAt(shards[0], p);
    if i > 0 {
      ContentsAtIndex(shards[1..], p, i - 1);
    } else {
      ContentsNowhere(shards[1..], p);
    }
  }

  lemma {:induction false} ContentsNowhere(shards: seq<NsMap>, p: Pair)
    requires forall j :: 0 <= j < |shards| ==> p.0 !in shards[j]
    ensures p !in Contents(shards)
  {
    if shards != [] {
      FlattenAt(shards[0], p);
      ContentsNowhere(shards[1..], p);
    }
  }

  lemma ContentsAt(shardOf: string -> nat, shards: seq<NsMap>, p: Pair)
    requires Sharded(shardOf, shards)
    ensures Get(Contents(shards), p) == At(shardOf, shards, p) == Get(Flatten(shards[shardOf(p.0)]), p)
  {
    ContentsAtIndex(shards, p, shardOf(p.0));
    FlattenAt(shards[shardOf(p.0)], p);
  }

  /** Only the shard of the pair decides what is stored there. */
  lemma ContentsFrom(shardOf: string -> nat, shards: seq<NsMap>, f: Flat)
    requires Sharded(shardOf, shards)
    requires forall p: Pair :: Get(Flatten(shards[shardOf(p.0)]), p) == Get(f, p)
    ensures Contents(shards) == f
  {
    forall p ensures Get(Contents(shards), p) == Get(f, p) {
      ContentsAt(shardOf, shards, p);
    }
    SameGets(Contents(shards), f);
  }

  /** A change to one shard is a change to the flat map, as long as the two agree on
      that shard's pairs and the rest of the map stays. */
  lemma OneShard(shardOf: string -> nat, before: seq<NsMap>, idx: nat, m: NsMap, f: Flat)
    requires Sharded(shardOf, before) && idx < SHARDS
    requires NoEmpty(m) && forall ns :: ns in m ==> shardOf(ns) == idx
    requires forall p: Pair :: Get(f, p) == if shardOf(p.0) == idx then Get(Flatten(m), p) else Get(Contents(before), p)
    ensures Sharded(shardOf, before[idx := m]) && Contents(before[idx := m]) == f
  {
    var after := before[idx := m];
    forall p: Pair ensures Get(Flatten(after[shardOf(p.0)]), p) == Get(f, p) {
      ContentsAt(shardOf, before, p);
    }
    ContentsFrom(shardOf, after, f);
  }

  lemma OneShardPut(shardOf: string -> nat, before: seq<NsMap>, e: Entry)
    requires Sharded(shardOf, before)
    ensures var after := before[shardOf(e.ns) := Put(before[shardOf(e.ns)], e)];
            Sharded(shardOf, after) && Contents(after) == Contents(before)[PairOf(e) := e.value]
  {
    var m := before[shardOf(e.ns)];
    FlattenPut(m, e);
    forall p: Pair ensures Get(Contents(before)[PairOf(e) := e.value], p)
                           == if shardOf(p.0) == shardOf(e.ns) then Get(Flatten(Put(m, e)), p) else Get(Contents(before), p)
    {
      ContentsAt(shardOf, before, p);
    }
    OneShard(shardOf, before, shardOf(e.ns), Put(m, e), Contents(before)[PairOf(e) := e.value]);
  }

  lemma OneShardWithout(shardOf: string -> nat, before: seq<NsMap>, after: seq<NsMap>, p: Pair)
    requires Sharded(shardOf, before) && Sharded(shardOf, after)
    requires after == before[shardOf(p.0) := after[shardOf(p.0)]]
    requires Flatten(after[shardOf(p.0)]) == Flatten(before[shardOf(p.0)]) - {p}
    ensures Contents(after) == Contents(before) - {p}
  {
    forall q: Pair ensures Get(Flatten(after[shardOf(q.0)]), q) == Get(Contents(before) - {p}, q) {
      ContentsAt(shardOf, before, q);
    }
    ContentsFrom(shardOf, after, Contents(before) - {p});
  }

  lemma OneShardWithoutNs(shardOf: string -> nat, before: seq<NsMap>, ns: string)
    requires Sharded(shardOf, before)
    ensures var after := before[shardOf(ns) := before[shardOf(ns)] - {ns}];
            Sharded(shardOf, after) && Contents(after) == WithoutNs(Contents(before), ns)
  {
    var idx := shardOf(ns);
    var m := before[idx] - {ns};
    FlattenDropNs(before[idx], ns);
    forall p: Pair ensures Get(WithoutNs(Contents(before), ns), p)
                           == if shardOf(p.0) == idx then Get(Flatten(m), p) else Get(Contents(before), p)
    {
      ContentsAt(shardOf, before, p);
    }
    OneShard(shardOf, before, idx, m, WithoutNs(Contents(before), ns));
  }

  // -------------------------------------------------------------------- buckets

  /** The entries that belong to shard `i`, in order. */
  function EntriesOf(shardOf: string -> nat, entries: seq<Entry>, i: nat): seq<Entry> {
    if entries == [] then []
    else
      var last := |entries| - 1;
      EntriesOf(shardOf, entries[..last], i) + if shardOf(entries[last].ns) == i then [entries[last]] else []
  }

  function PairsFor(shardOf: string -> nat, pairs: seq<Pair>, i: nat): seq<Pair> {
    if pairs == [] then []
    else
      var last := |pairs| - 1;
      PairsFor(shardOf, pairs[..last], i) + if shardOf(pairs[last].0) == i then [pairs[last]] else []
  }

  lemma {:induction false} LastForSnoc(entries: seq<Entry>, e: Entry, p: Pair)
    ensures LastFor(entries + [e], p) == if PairOf(e) == p then Some(e.value) else LastFor(entries, p)
  {
    if entries == [] {
      assert (entries + [e])[1..] == [];
    } else {
      assert (entries + [e])[1..] == entries[1..] + [e];
      LastForSnoc(entries[1..], e, p);
    }
  }

  /** Bucketing keeps the order of the entries for each pair. */
  lemma {:induction false} BucketKeepsLast(shardOf: string -> nat, entries: seq<Entry>, p: Pair)
    ensures LastFor(EntriesOf(shardOf, entries, shardOf(p.0)), p) == LastFor(entries, p)
  {
    if entries != [] {
      var last := |entries| - 1;
      BucketKeepsLast(shardOf, entries[..last], p);
      assert entries == entries[..last] + [entries[last]];
      LastForSnoc(entries[..last], entries[last], p);
      LastForSnoc(EntriesOf(shardOf, entries[..last], shardOf(p.0)), entries[last], p);
      assert EntriesOf(shardOf, entries[..last], shardOf(p.0)) + [] == EntriesOf(shardOf, entries[..last], shardOf(p.0));
    }
  }

  lemma {:induction false} BucketMembers(shardOf: string -> nat, pairs: seq<Pair>, i: nat)
    ensures forall p :: p in PairsFor(shardOf, pairs, i) <==> p in pairs && shardOf(p.0) == i
  {
    if pairs != [] {
      var last := |pairs| - 1;
      BucketMembers(shardOf, pairs[..last], i);
      assert forall p :: p in pairs <==> p in pairs[..last] || p == pairs[last];
    }
  }

  lemma {:induction false} BucketEntriesBelong(shardOf: string -> nat, entries: seq<Entry>, i: nat)
    ensures forall e :: e in EntriesOf(shardOf, entries, i) ==> shardOf(e.ns) == i
  {
    if entries != [] { BucketEntriesBelong(shardOf, entries[..|entries| - 1], i); }
  }

  /** `set_many`, shard by shard, is the entries stored in order. */
  lemma ShardsArePutAll(shardOf: string -> nat, before: seq<NsMap>, after: seq<NsMap>, entries: seq<Entry>)
    requires Sharded(shardOf, before) && Sharded(shardOf, after)
    requires forall i :: 0 <= i < SHARDS ==>
               Flatten(after[i]) == PutAll(Flatten(before[i]), EntriesOf(shardOf, entries, i))
    ensures Contents(after) == PutAll(Contents(before), entries)
  {
    forall p: Pair ensures Get(Flatten(after[shardOf(p.0)]), p) == Get(PutAll(Contents(before), entries), p) {
      var i := shardOf(p.0);
      ContentsAt(shardOf, before, p);
      PutAllAt(Contents(before), entries, p);
      PutAllAt(Flatten(before[i]), EntriesOf(shardOf, entries, i), p);
      BucketKeepsLast(shardOf, entries, p);
    }
    ContentsFrom(shardOf, after, PutAll(Contents(before), entries));
  }

  /** `delete_many`, shard by shard, removes exactly the pairs listed. */
  lemma ShardsAreWithout(shardOf: string -> nat, before: seq<NsMap>, after: seq<NsMap>, pairs: seq<Pair>)
    requires Sharded(shardOf, before) && Sharded(shardOf, after)
    requires forall i :: 0 <= i < SHARDS ==>
               Flatten(after[i]) == Flatten(before[i]) - PairSet(PairsFor(shardOf, pairs, i))
    ensures Contents(after) == Contents(before) - PairSet(pairs)
  {
    forall p: Pair ensures Get(Flatten(after[shardOf(p.0)]), p) == Get(Contents(before) - PairSet(pairs), p) {
      ContentsAt(shardOf, before, p);
      BucketMembers(shardOf, pairs, shardOf(p.0));
      assert p in PairSet(PairsFor(shardOf, pairs, shardOf(p.0))) <==> p in PairSet(pairs);
    }
    ContentsFrom(shardOf, after, Contents(before) - PairSet(pairs));
  }

  /** The stored pairs that are listed. */
  ghost function Listed(f: Flat, pairs: seq<Pair>): set<Pair> {
    set p | p in f && p in pairs
  }

  /** How many of the listed pairs the first `n` shards hold. */
  ghost function CountPresent(shardOf: string -> nat, shards: seq<NsMap>, pairs: seq<Pair>, n: nat): nat
    requires n <= |shards|
  {
    if n == 0 then 0
    else CountPresent(shardOf, shards, pairs, n - 1)
         + |Listed(Flatten(shards[n - 1]), PairsFor(shardOf, pairs, n - 1))|
  }

  /** The listed pairs that are stored in the first `n` shards. */
  ghost function PresentBelow(shardOf: string -> nat, shards: seq<NsMap>, pairs: seq<Pair>, n: nat): set<Pair> {
    set p | p in pairs && p in Contents(shards) && shardOf(p.0) < n
  }

  /** How many listed pairs shard `n` holds. */
  ghost function PresentAt(shardOf: string -> nat, shards: seq<NsMap>, pairs: seq<Pair>, n: nat): nat
    requires n < |shards|
  {
    |Listed(Flatten(shards[n]), PairsFor(shardOf, pairs, n))|
  }

  lemma PresentInShard(shardOf: string -> nat, shards: seq<NsMap>, pairs: seq<Pair>, n: nat)
    requires Sharded(shardOf, shards) && n < SHARDS
    ensures |PresentBelow(shardOf, shards, pairs, n + 1)|
              == |PresentBelow(shardOf, shards, pairs, n)| + PresentAt(shardOf, shards, pairs, n)
  {
    var here := Listed(Flatten(shards[n]), PairsFor(shardOf, pairs, n));
    BucketMembers(shardOf, pairs, n);
    forall p ensures p in here <==> p in pairs && p in Contents(shards) && shardOf(p.0) == n {
      ContentsAt(shardOf, shards, p);
      assert p in PairSet(PairsFor(shardOf, pairs, n)) <==> p in PairsFor(shardOf, pairs, n);
    }
    var below := PresentBelow(shardOf, shards, pairs, n);
    assert below !! here;
    assert PresentBelow(shardOf, shards, pairs, n + 1) == below + here;
  }

  lemma NothingPresentBelowZero(shardOf: string -> nat, shards: seq<NsMap>, pairs: seq<Pair>)
    ensures PresentBelow(shardOf, shards, pairs, 0) == {}
  {
  }

  lemma {:induction false} CountsAddUp(shardOf: string -> nat, shards: seq<NsMap>, pairs: seq<Pair>, below: seq<nat>, n: nat)
    requires n < |below| && n <= |shards| && below[0] == 0
    requires forall k :: 0 <= k < n ==> below[k + 1] == below[k] + PresentAt(shardOf, shards, pairs, k)
    ensures CountPresent(shardOf, shards, pairs, n) == below[n]
  {
    if n > 0 {
      CountsAddUp(shardOf, shards, pairs, below, n - 1);
      assert below[n - 1 + 1] == below[n - 1] + PresentAt(shardOf, shards, pairs, n - 1);
    }
  }

  /** Shard by shard, each present pair is counted once. */
  lemma CountsEachOnce(shardOf: string -> nat, shards: seq<NsMap>, pairs: seq<Pair>)
    requires Sharded(shardOf, shards)
    ensures CountPresent(shardOf, shards, pairs, SHARDS) == |PresentBelow(shardOf, shards, pairs, SHARDS)|
  {
    var below := seq(SHARDS + 1, k requires 0 <= k => |PresentBelow(shardOf, shards, pairs, k)|);
    NothingPresentBelowZero(shardOf, shards, pairs);
    forall k: nat | k < SHARDS ensures below[k + 1] == below[k] + PresentAt(shardOf, shards, pairs, k) {
      PresentInShard(shardOf, shards, pairs, k);
    }
    CountsAddUp(shardOf, shards, pairs, below, SHARDS);
  }

  // ------------------------------------------------------------------ snapshots

  /** A snapshot whose counters belong to its shards. */
  ghost predicate GoodSnapshot(shardOf: string -> nat, s: SnapshotData) {
    Sharded(shardOf, s.shards) && Counted(s.shards, s.shardBytes) && s.sizeBytes == Sum(s.shardBytes)
  }

  /** No more snapshots are retained than asked for, in the order of their ids, each
      good for a restore. */
  ghost predicate GoodHistory(shardOf: string -> nat, max: Option<nat>, history: seq<SnapshotData>, counter: nat,
                              lastId: Option<nat>)
  {
    && (max.Some? ==> |history| <= max.value)
    && (lastId.Some? ==> lastId.value < counter)
    && (forall i :: 0 <= i < |history| ==> GoodSnapshot(shardOf, history[i]) && history[i].id < counter)
    && (forall i, j :: 0 <= i < j < |history| ==> history[i].id < history[j].id)
  }

  /** The last `n` of `h`. */
  function LastOf(h: seq<SnapshotData>, n: nat): seq<SnapshotData> {
    if |h| <= n then h else h[|h| - n..]
  }

  /** What the store retains once `s` has been taken. */
  function Retained(history: seq<SnapshotData>, s: SnapshotData, max: Option<nat>): seq<SnapshotData> {
    match max
    case None => history + [s]
    case Some(n) => LastOf(history + [s], n)
  }

  /** What a bound leaves of the history: without one everything and then the new snapshot,
      with a bound of zero nothing, and else the new one last, and before it those newest
      before, as many as the bound has room for; the oldest are what goes. */
  ghost predicate NewestRetained(before: seq<SnapshotData>, s: SnapshotData, max: Option<nat>,
                                 after: seq<SnapshotData>)
  {
    match max
    case None => |after| == |before| + 1 && after[|before|] == s && forall i :: 0 <= i < |before| ==> after[i] == before[i]
    case Some(n) =>
      if n == 0 then after == []
      else
        var stay := if |before| < n then |before| else n - 1;
        && |after| == stay + 1 && after[stay] == s
        && forall i :: 0 <= i < stay ==> after[i] == before[|before| - stay + i]
  }

  lemma RetainedIsNewest(before: seq<SnapshotData>, s: SnapshotData, max: Option<nat>)
    ensures NewestRetained(before, s, max, Retained(before, s, max))
  {
  }

  lemma RetainedIsGood(shardOf: string -> nat, max: Option<nat>, history: seq<SnapshotData>, s: SnapshotData,
                       lastId: Option<nat>)
    requires GoodHistory(shardOf, max, history, s.id, lastId) && GoodSnapshot(shardOf, s)
    ensures GoodHistory(shardOf, max, Retained(history, s, max), s.id + 1, Some(s.id))
  {
    assert GoodHistory(shardOf, None, history + [s], s.id + 1, Some(s.id));
  }

  lemma CountedUpdate(shards: seq<NsMap>, bytes: seq<nat>, idx: nat, m: NsMap, n: nat)
    requires Counted(shards, bytes) && idx < |shards| && n == SumLen(Flatten(m))
    ensures Counted(shards[idx := m], bytes[idx := n])
  {
  }

  lemma ShardedUpdate(shardOf: string -> nat, shards: seq<NsMap>, idx: nat, m: NsMap)
    requires Sharded(shardOf, shards) && idx < SHARDS && NoEmpty(m) && forall ns :: ns in m ==> shardOf(ns) == idx
    ensures Sharded(shardOf, shards[idx := m])
  {
  }

  // ---------------------------------------------- what happens inside one shard

  /** The insertion every write makes: into the namespace's map, or a new one. */
  method InsertEntry(m: NsMap, e: Entry) returns (r: NsMap, oldLen: nat)
    ensures r == Put(m, e)
    ensures oldLen == LenAt(Flatten(m), PairOf(e))
  {
    FlattenAt(m, PairOf(e));
    if e.ns in m {
      var ns := m[e.ns];
      oldLen := if e.key in ns then |ns[e.key]| else 0;
      r := m[e.ns := ns[e.key := e.value]];
    } else {
      oldLen := 0;
      r := m[e.ns := map[e.key := e.value]];
    }
  }

  function LenAt(f: Flat, p: Pair): nat {
    if p in f then |f[p]| else 0
  }

  lemma PutBytes(m: NsMap, e: Entry)
    ensures SumLen(Flatten(Put(m, e))) == SumLen(Flatten(m)) + |e.value| - LenAt(Flatten(m), PairOf(e))
  {
    FlattenPut(m, e);
    SumLenPut(Flatten(m), PairOf(e), e.value);
  }

  /** `set`, under the shard's lock: the counter moves by the difference in length and
      never below zero. */
  method SetInShard(m: NsMap, bytes: nat, e: Entry) returns (r: NsMap, bytes': nat)
    requires bytes == SumLen(Flatten(m))
    ensures r == Put(m, e) && bytes' == SumLen(Flatten(r))
    ensures NoEmpty(m) ==> NoEmpty(r)
  {
    FlattenPut(m, e);
    PutBytes(m, e);
    var oldLen;
    r, oldLen := InsertEntry(m, e);
    if |e.value| >= oldLen {
      bytes' := bytes + (|e.value| - oldLen);
    } else {
      bytes' := bytes - (oldLen - |e.value|);
    }
  }

  /** `set_many`, under the shard's lock: one change of the counter for the bucket. */
  method SetAllInShard(m: NsMap, bytes: nat, bucket: seq<Entry>) returns (r: NsMap, bytes': nat)
    requires bytes == SumLen(Flatten(m)) && NoEmpty(m)
    ensures NoEmpty(r) && bytes' == SumLen(Flatten(r))
    ensures Flatten(r) == PutAll(Flatten(m), bucket)
    ensures forall ns :: ns in r ==> ns in m || exists e :: e in bucket && e.ns == ns
  {
    r := m;
    var delta: int := 0;
    assert bucket[0..] == bucket;
    for i := 0 to |bucket|
      invariant forall ns :: ns in r ==> ns in m || exists e :: e in bucket && e.ns == ns
      invariant SetSoFar(m, bucket, i, r, delta)
    {
      assert bucket[i] in bucket;
      SetOneMore(m, bucket, i, r, delta);
      var oldLen;
      r, oldLen := InsertEntry(r, bucket[i]);
      delta := delta + |bucket[i].value| - oldLen;
    }
    assert PutAll(Flatten(r), bucket[|bucket|..]) == Flatten(r);
    if delta >= 0 {
      bytes' := bytes + delta;
    } else {
      bytes' := bytes - -delta;
    }
  }

  /** After the first `i` entries of a bucket: the rest are still to be stored, and
      `delta` is how much the shard has grown. */
  ghost predicate SetSoFar(start: NsMap, bucket: seq<Entry>, i: nat, m: NsMap, delta: int)
    requires i <= |bucket|
  {
    && (NoEmpty(start) ==> NoEmpty(m))
    && PutAll(Flatten(m), bucket[i..]) == PutAll(Flatten(start), bucket)
    && SumLen(Flatten(m)) == SumLen(Flatten(start)) + delta
  }

  lemma SetOneMore(start: NsMap, bucket: seq<Entry>, i: nat, m: NsMap, delta: int)
    requires i < |bucket| && SetSoFar(start, bucket, i, m, delta)
    ensures SetSoFar(start, bucket, i + 1, Put(m, bucket[i]),
                     delta + |bucket[i].value| - LenAt(Flatten(m), PairOf(bucket[i])))
  {
    assert bucket[i..][1..] == bucket[i + 1..];
    FlattenPut(m, bucket[i]);
    PutBytes(m, bucket[i]);
  }

  /** `delete_many`, under the shard's lock. */
  method DeleteInShard(m: NsMap, bytes: nat, bucket: seq<Pair>) returns (r: NsMap, bytes': nat, removed: nat)
    requires bytes == SumLen(Flatten(m)) && NoEmpty(m)
    ensures NoEmpty(r) && bytes' == SumLen(Flatten(r)) && r.Keys <= m.Keys
    ensures Flatten(r) == Flatten(m) - PairSet(bucket)
    ensures removed == |Listed(Flatten(m), bucket)|
  {
    r := m;
    var freed: nat := 0;
    removed := 0;
    NothingListed(Flatten(m));
    assert bucket[..0] == [];
    for i := 0 to |bucket|
      invariant r.Keys <= m.Keys
      invariant DeletedSoFar(m, bucket, i, r, freed, removed)
    {
      r, freed, removed := DeleteNext(m, bucket, i, r, freed, removed);
    }
    assert bucket[..|bucket|] == bucket;
    bytes' := bytes - freed;
  }

  /** The next pair of the bucket. */
  method DeleteNext(ghost start: NsMap, bucket: seq<Pair>, i: nat, m: NsMap, freed: nat, removed: nat)
      returns (m': NsMap, freed': nat, removed': nat)
    requires i < |bucket| && DeletedSoFar(start, bucket, i, m, freed, removed)
    ensures DeletedSoFar(start, bucket, i + 1, m', freed', removed') && m'.Keys <= m.Keys
  {
    DeleteOneMore(start, bucket, i, m, freed, removed);
    m', freed', removed' := Remove(m, bucket[i]), freed, removed;
    var gone := Look(m, bucket[i]);
    if gone.Some? {
      freed' := freed + |gone.value|;
      removed' := removed + 1;
    }
  }

  /** After the first `i` pairs of a bucket: they are gone, the bytes freed are theirs,
      and each that was there has been counted once. */
  ghost predicate DeletedSoFar(start: NsMap, bucket: seq<Pair>, i: nat, m: NsMap, freed: nat, removed: nat)
    requires i <= |bucket|
  {
    && NoEmpty(m)
    && Flatten(m) == Flatten(start) - PairSet(bucket[..i])
    && SumLen(Flatten(start)) == SumLen(Flatten(m)) + freed
    && removed == |Listed(Flatten(start), bucket[..i])|
  }

  lemma DeleteOneMore(start: NsMap, bucket: seq<Pair>, i: nat, m: NsMap, freed: nat, removed: nat)
    requires i < |bucket| && DeletedSoFar(start, bucket, i, m, freed, removed)
    ensures var p := bucket[i];
            && Remove(m, p).Keys <= m.Keys
            && match Look(m, p)
               case None => DeletedSoFar(start, bucket, i + 1, Remove(m, p), freed, removed)
               case Some(v) => DeletedSoFar(start, bucket, i + 1, Remove(m, p), freed + |v|, removed + 1)
  {
    var p := bucket[i];
    FlattenRemove(m, p);
    FlattenAt(m, p);
    OneMorePair(Flatten(start), bucket, i);
    if Look(m, p).Some? {
      SumLenWithout(Flatten(m), p);
    } else {
      assert Flatten(m) - {p} == Flatten(m);
    }
  }

  lemma PairSetGrows(bucket: seq<Pair>, i: nat)
    requires i < |bucket|
    ensures PairSet(bucket[..i + 1]) == PairSet(bucket[..i]) + {bucket[i]}
  {
    assert bucket[..i + 1] == bucket[..i] + [bucket[i]];
  }

  lemma OneMoreListed(f: Flat, bucket: seq<Pair>, i: nat)
    requires i < |bucket|
    ensures |Listed(f, bucket[..i + 1])|
              == |Listed(f, bucket[..i])| + if bucket[i] in f && bucket[i] !in bucket[..i] then 1 else 0
  {
    assert bucket[..i + 1] == bucket[..i] + [bucket[i]];
    if bucket[i] in f && bucket[i] !in bucket[..i] {
      assert Listed(f, bucket[..i + 1]) == Listed(f, bucket[..i]) + {bucket[i]};
    } else {
      assert Listed(f, bucket[..i + 1]) == Listed(f, bucket[..i]);
    }
  }

  lemma OneMorePair(f: Flat, bucket: seq<Pair>, i: nat)
    requires i < |bucket|
    ensures f - PairSet(bucket[..i + 1]) == f - PairSet(bucket[..i]) - {bucket[i]}
    ensures |Listed(f, bucket[..i + 1])|
              == |Listed(f, bucket[..i])| + if bucket[i] in f - PairSet(bucket[..i]) then 1 else 0
  {
    PairSetGrows(bucket, i);
    OneMoreListed(f, bucket, i);
  }

  lemma NothingListed(f: Flat)
    ensures f - PairSet([]) == f && |Listed(f, [])| == 0
  {
    assert Listed(f, []) == {};
  }

  lemma OneListed(f: Flat, p: Pair)
    ensures PairSet([p]) == {p} && |Listed(f, [p])| == if p in f then 1 else 0
  {
    assert Listed(f, [p]) == if p in f then {p} else {};
  }

  lemma DeletedOne(shardOf: string -> nat, before: seq<NsMap>, after: seq<NsMap>, p: Pair)
    requires Sharded(shardOf, before) && Sharded(shardOf, after)
    requires after == before[shardOf(p.0) := after[shardOf(p.0)]]
    requires Flatten(after[shardOf(p.0)]) == Flatten(before[shardOf(p.0)]) - PairSet([p])
    ensures Contents(after) == Contents(before) - {p}
    ensures p in Contents(before) <==> |Listed(Flatten(before[shardOf(p.0)]), [p])| == 1
  {
    OneListed(Flatten(before[shardOf(p.0)]), p);
    ContentsAt(shardOf, before, p);
    OneShardWithout(shardOf, before, after, p);
  }

  /** `set_many`, after the first `n` shards. */
  ghost predicate SetBelow(shardOf: string -> nat, before: seq<NsMap>, now: seq<NsMap>, entries: seq<Entry>, n: nat)
    requires n <= SHARDS
  {
    && |before| == |now| == SHARDS
    && (forall i :: n <= i < SHARDS ==> now[i] == before[i])
    && (forall i :: 0 <= i < n ==> Flatten(now[i]) == PutAll(Flatten(before[i]), EntriesOf(shardOf, entries, i)))
  }

  lemma SetOneShardMore(shardOf: string -> nat, before: seq<NsMap>, now: seq<NsMap>, after: seq<NsMap>,
                        entries: seq<Entry>, idx: nat)
    requires idx < SHARDS && SetBelow(shardOf, before, now, entries, idx)
    requires |after| == SHARDS && after == now[idx := after[idx]]
    requires Flatten(after[idx]) == PutAll(Flatten(now[idx]), EntriesOf(shardOf, entries, idx))
    ensures SetBelow(shardOf, before, after, entries, idx + 1)
  {
  }

  /** `delete_many`, after the first `n` shards. */
  ghost predicate DeletedBelow(shardOf: string -> nat, before: seq<NsMap>, now: seq<NsMap>, pairs: seq<Pair>, n: nat,
                               removed: nat)
    requires n <= |before| == |now| == SHARDS
  {
    && (forall i :: n <= i < SHARDS ==> now[i] == before[i])
    && (forall i :: 0 <= i < n ==> Flatten(now[i]) == Flatten(before[i]) - PairSet(PairsFor(shardOf, pairs, i)))
    && removed == CountPresent(shardOf, before, pairs, n)
  }

  lemma DeletedOneShardMore(shardOf: string -> nat, before: seq<NsMap>, now: seq<NsMap>, after: seq<NsMap>,
                            pairs: seq<Pair>, idx: nat, removed: nat, n: nat)
    requires idx < |before| == |now| == |after| == SHARDS
    requires DeletedBelow(shardOf, before, now, pairs, idx, removed)
    requires after == now[idx := after[idx]]
    requires Flatten(after[idx]) == Flatten(now[idx]) - PairSet(PairsFor(shardOf, pairs, idx))
    requires n == |Listed(Flatten(now[idx]), PairsFor(shardOf, pairs, idx))|
    ensures DeletedBelow(shardOf, before, after, pairs, idx + 1, removed + n)
  {
  }

  lemma DeletedEverywhere(shardOf: string -> nat, before: seq<NsMap>, now: seq<NsMap>, pairs: seq<Pair>, removed: nat)
    requires Sharded(shardOf, before) && Sharded(shardOf, now)
    requires DeletedBelow(shardOf, before, now, pairs, SHARDS, removed)
    ensures Contents(now) == Contents(before) - PairSet(pairs)
    ensures removed == |Listed(Contents(before), pairs)|
  {
    ShardsAreWithout(shardOf, before, now, pairs);
    CountsEachOnce(shardOf, before, pairs);
    assert PresentBelow(shardOf, before, pairs, SHARDS) == Listed(Contents(before), pairs);
  }

  /** `delete_namespace`, under the shard's lock: the bytes left and the keys removed. */
  method BytesWithout(m: NsMap, bytes: nat, ns: string) returns (bytes': nat, removed: nat)
    requires ns in m && bytes == SumLen(Flatten(m))
    ensures bytes' == SumLen(Flatten(m - {ns})) && removed == |m[ns]|
  {
    NamespaceBytes(m, ns);
    var freed := TotalLen(m[ns]);
    bytes' := bytes - freed;
    removed := |m[ns]|;
  }

  lemma NothingToDrop(shards: seq<NsMap>, idx: nat, ns: string)
    requires idx < |shards| && ns !in shards[idx]
    ensures shards[idx := shards[idx] - {ns}] == shards
  {
    assert shards[idx] - {ns} == shards[idx];
  }

  /** The pairs of one namespace. */
  ghost function InNs(f: Flat, ns: string): set<Pair> {
    set p | p in f && p.0 == ns
  }

  lemma CountNamespace(shardOf: string -> nat, shards: seq<NsMap>, ns: string)
    requires Sharded(shardOf, shards)
    ensures |InNs(Contents(shards), ns)| == if ns in shards[shardOf(ns)] then |shards[shardOf(ns)][ns]| else 0
  {
    var m := shards[shardOf(ns)];
    var there := InNs(Contents(shards), ns);
    var keys := if ns in m then m[ns].Keys else {};
    forall p ensures p in there <==> p.0 == ns && p.1 in keys {
      ContentsAt(shardOf, shards, p);
    }
    KeysAsPairs(ns, keys, there);
  }

  lemma {:induction false} KeysAsPairs(ns: string, keys: set<string>, pairs: set<Pair>)
    requires forall p :: p in pairs <==> p.0 == ns && p.1 in keys
    ensures |pairs| == |keys|
    decreases keys
  {
    if keys == {} {
      assert pairs == {};
    } else {
      var k :| k in keys;
      KeysAsPairs(ns, keys - {k}, pairs - {(ns, k)});
      assert (ns, k) in pairs;
    }
  }

  /** `values().map(|v| v.len()).sum()`. */
  method TotalLen(inner: map<string, Bytes>) returns (total: nat)
    ensures total == InnerLen(inner)
  {
    total := 0;
    var todo := inner;
    while todo != map[]
      invariant total + InnerLen(todo) == InnerLen(inner)
      decreases |todo|
    {
      var k :| k in todo;
      InnerLenWithout(todo, k);
      total := total + |todo[k]|;
      todo := todo - {k};
    }
  }

  ghost function InnerLen(inner: map<string, Bytes>): nat {
    if inner == map[] then 0
    else
      var k :| k in inner;
      |inner[k]| + InnerLen(inner - {k})
  }

  lemma {:induction false} InnerLenWithout(inner: map<string, Bytes>, k: string)
    requires k in inner
    ensures InnerLen(inner) == |inner[k]| + InnerLen(inner - {k})
    decreases |inner|
  {
    var q :| q in inner && InnerLen(inner) == |inner[q]| + InnerLen(inner - {q});
    if k != q {
      assert inner - {q} - {k} == inner - {k} - {q};
      InnerLenWithout(inner - {q}, k);
      InnerLenWithout(inner - {k}, q);
    }
  }

  /** A namespace accounts for exactly the bytes of its values. */
  lemma {:induction false} NamespaceBytes(m: NsMap, ns: string)
    requires ns in m
    ensures SumLen(Flatten(m)) == SumLen(Flatten(m - {ns})) + InnerLen(m[ns])
    decreases |m[ns]|
  {
    if m[ns] == map[] {
      forall p ensures Look(m, p) == Get(Flatten(m - {ns}), p) {
        FlattenAt(m - {ns}, p);
      }
      FlattenIs(m, Flatten(m - {ns}));
    } else {
      var k :| k in m[ns];
      OneKeyLess(m, ns, k);
      InnerLenWithout(m[ns], k);
      NamespaceBytes(m[ns := m[ns] - {k}], ns);
    }
  }

  lemma OneKeyLess(m: NsMap, ns: string, k: string)
    requires ns in m && k in m[ns]
    ensures var m' := m[ns := m[ns] - {k}];
            SumLen(Flatten(m)) == SumLen(Flatten(m')) + |m[ns][k]| && m' - {ns} == m - {ns}
  {
    var m' := m[ns := m[ns] - {k}];
    FlattenAt(m, (ns, k));
    forall p ensures Look(m', p) == Get(Flatten(m) - {(ns, k)}, p) {
      FlattenAt(m, p);
    }
    FlattenIs(m', Flatten(m) - {(ns, k)});
    SumLenWithout(Flatten(m), (ns, k));
  }

  // ------------------------------------------------------------------ the store

  class Store {
    const shardOf: string -> nat
    var shards: seq<NsMap>
    var shardBytes: seq<nat>
    const maxHistory: Option<nat>
    var history: seq<SnapshotData>
    var counter: nat
    var lastId: Option<nat>

    ghost predicate Valid()
      reads this
    {
      && Sharded(shardOf, shards)
      && Counted(shards, shardBytes)
      && GoodHistory(shardOf, maxHistory, history, counter, lastId)
    }

    ghost function View(): Flat
      reads this
    {
      Contents(shards)
    }

    constructor (shardOf: string -> nat, maxHistory: Option<nat>)
      requires forall ns :: shardOf(ns) < SHARDS
      ensures Valid() && View() == map[] && history == [] && lastId == None
      ensures this.shardOf == shardOf && this.maxHistory == maxHistory
    {
      this.shardOf := shardOf;
      this.maxHistory := maxHistory;
      shards := seq(SHARDS, i => map[]);
      shardBytes := seq(SHARDS, i => 0);
      history, counter, lastId := [], 1, None;
      new;
      forall i | 0 <= i < SHARDS ensures SumLen(Flatten(shards[i])) == 0 {
        assert Flatten(shards[i]) == map[];
      }
      ContentsFrom(shardOf, shards, map[]);
    }

    /** A shard's map and counter, replaced together. */
    method Replace(idx: nat, m: NsMap, bytes: nat)
      requires Valid() && idx < SHARDS
      requires NoEmpty(m) && bytes == SumLen(Flatten(m)) && forall ns :: ns in m ==> shardOf(ns) == idx
      modifies this`shards, this`shardBytes
      ensures Valid() && shards == old(shards)[idx := m]
    {
      CountedUpdate(shards, shardBytes, idx, m, bytes);
      ShardedUpdate(shardOf, shards, idx, m);
      shards := shards[idx := m];
      shardBytes := shardBytes[idx := bytes];
    }

    // ------------------------------------------------------------------ writes

    /** `set`. */
    method Set(e: Entry)
      requires Valid()
      modifies this`shards, this`shardBytes
      ensures Valid() && View() == old(View())[PairOf(e) := e.value]
    {
      var idx := shardOf(e.ns);
      var m, bytes := SetInShard(shards[idx], shardBytes[idx], e);
      OneShardPut(shardOf, shards, e);
      Replace(idx, m, bytes);
    }

    /** One shard's part of `set_many`, under its lock. */
    method SetBucket(idx: nat, bucket: seq<Entry>)
      requires Valid() && idx < SHARDS && forall e :: e in bucket ==> shardOf(e.ns) == idx
      modifies this`shards, this`shardBytes
      ensures Valid()
      ensures shards == old(shards)[idx := shards[idx]]
      ensures Flatten(shards[idx]) == PutAll(Flatten(old(shards[idx])), bucket)
    {
      var m, bytes := SetAllInShard(shards[idx], shardBytes[idx], bucket);
      Replace(idx, m, bytes);
    }

    /** The bucketing of `set_many`. */
    method BucketEntries(entries: seq<Entry>) returns (buckets: seq<seq<Entry>>)
      requires forall ns :: shardOf(ns) < SHARDS
      ensures |buckets| == SHARDS
      ensures forall i :: 0 <= i < SHARDS ==> buckets[i] == EntriesOf(shardOf, entries, i)
    {
      buckets := seq(SHARDS, i => []);
      for k := 0 to |entries|
        invariant |buckets| == SHARDS
        invariant forall i :: 0 <= i < SHARDS ==> buckets[i] == EntriesOf(shardOf, entries[..k], i)
      {
        var idx := shardOf(entries[k].ns);
        assert entries[..k + 1][..k] == entries[..k];
        buckets := buckets[idx := buckets[idx] + [entries[k]]];
      }
      assert entries[..|entries|] == entries;
    }

    /** `set_many`: the same as storing the entries in order. */
    method SetMany(entries: seq<Entry>)
      requires Valid()
      modifies this`shards, this`shardBytes
      ensures Valid() && View() == PutAll(old(View()), entries)
    {
      ghost var before := shards;
      var buckets := BucketEntries(entries);
      for idx := 0 to SHARDS
        invariant Valid() && SetBelow(shardOf, before, shards, entries, idx)
      {
        ghost var now := shards;
        BucketEntriesBelong(shardOf, entries, idx);
        if buckets[idx] != [] {
          SetBucket(idx, buckets[idx]);
        }
        SetOneShardMore(shardOf, before, now, shards, entries, idx);
      }
      ShardsArePutAll(shardOf, before, shards, entries);
    }

    // ------------------------------------------------------------------- reads

    /** `get`. */
    method GetValue(p: Pair) returns (r: Option<Bytes>)
      requires Valid()
      ensures r == Get(View(), p)
    {
      ContentsAt(shardOf, shards, p);
      r := At(shardOf, shards, p);
    }

    /** The answers for the pairs of the first `idx` shards are in place. */
    ghost predicate Answered(pairs: seq<Pair>, out: seq<Option<Bytes>>, idx: nat)
      requires Valid()
      reads this
    {
      && |out| == |pairs|
      && forall i :: 0 <= i < |pairs| && shardOf(pairs[i].0) < idx ==> out[i] == At(shardOf, shards, pairs[i])
    }

    /** One shard's pairs, answered under its read lock. */
    method AnswerShard(pairs: seq<Pair>, bucket: seq<nat>, before: seq<Option<Bytes>>) returns (out: seq<Option<Bytes>>)
      requires Valid() && |before| == |pairs|
      requires forall i :: i in bucket ==> i < |pairs|
      ensures |out| == |pairs|
      ensures forall i :: 0 <= i < |pairs| ==> out[i] == if i in bucket then At(shardOf, shards, pairs[i]) else before[i]
    {
      out := before;
      for k := 0 to |bucket|
        invariant |out| == |pairs|
        invariant forall i :: 0 <= i < |pairs| ==>
                    out[i] == if i in bucket[..k] then At(shardOf, shards, pairs[i]) else before[i]
      {
        assert bucket[..k + 1] == bucket[..k] + [bucket[k]] && bucket[k] in bucket;
        out := out[bucket[k] := At(shardOf, shards, pairs[bucket[k]])];
      }
      assert bucket[..|bucket|] == bucket;
    }

    /** `get_many`: bucketed by shard, answered in the order asked. */
    method GetMany(pairs: seq<Pair>) returns (out: seq<Option<Bytes>>)
      requires Valid()
      ensures |out| == |pairs|
      ensures forall i :: 0 <= i < |pairs| ==> out[i] == Get(View(), pairs[i])
    {
      out := seq(|pairs|, i => None);
      var buckets := BucketIndices(pairs);
      for idx := 0 to SHARDS
        invariant Answered(pairs, out, idx)
      {
        out := AnswerShard(pairs, buckets[idx], out);
      }
      forall i | 0 <= i < |pairs| ensures out[i] == Get(View(), pairs[i]) {
        ContentsAt(shardOf, shards, pairs[i]);
      }
    }

    method BucketIndices(pairs: seq<Pair>) returns (buckets: seq<seq<nat>>)
      requires forall ns :: shardOf(ns) < SHARDS
      ensures |buckets| == SHARDS
      ensures forall b :: 0 <= b < SHARDS ==> forall i: nat :: i in buckets[b] <==> i < |pairs| && shardOf(pairs[i].0) == b
    {
      buckets := seq(SHARDS, i => []);
      for n := 0 to |pairs|
        invariant |buckets| == SHARDS
        invariant forall b :: 0 <= b < SHARDS ==> forall i: nat :: i in buckets[b] <==> i < n && shardOf(pairs[i].0) == b
      {
        var idx := shardOf(pairs[n].0);
        buckets := buckets[idx := buckets[idx] + [n]];
      }
    }

    // ----------------------------------------------------------------- deletes

    /** `delete`. */
    method Delete(p: Pair) returns (removed: bool)
      requires Valid()
      modifies this`shards, this`shardBytes
      ensures Valid() && View() == old(View()) - {p} && removed == (p in old(View()))
    {
      var count := DeleteBucket(shardOf(p.0), [p]);
      removed := count == 1;
      DeletedOne(shardOf, old(shards), shards, p);
    }

    /** One shard's part of `delete_many`, under its lock. */
    method DeleteBucket(idx: nat, bucket: seq<Pair>) returns (removed: nat)
      requires Valid() && idx < SHARDS && forall p :: p in bucket ==> shardOf(p.0) == idx
      modifies this`shards, this`shardBytes
      ensures Valid()
      ensures shards == old(shards)[idx := shards[idx]]
      ensures Flatten(shards[idx]) == Flatten(old(shards[idx])) - PairSet(bucket)
      ensures removed == |Listed(Flatten(old(shards[idx])), bucket)|
    {
      var m, bytes;
      m, bytes, removed := DeleteInShard(shards[idx], shardBytes[idx], bucket);
      Replace(idx, m, bytes);
    }

    method BucketPairs(pairs: seq<Pair>) returns (buckets: seq<seq<Pair>>)
      requires forall ns :: shardOf(ns) < SHARDS
      ensures |buckets| == SHARDS
      ensures forall i :: 0 <= i < SHARDS ==> buckets[i] == PairsFor(shardOf, pairs, i)
    {
      buckets := seq(SHARDS, i => []);
      for k := 0 to |pairs|
        invariant |buckets| == SHARDS
        invariant forall i :: 0 <= i < SHARDS ==> buckets[i] == PairsFor(shardOf, pairs[..k], i)
      {
        var idx := shardOf(pairs[k].0);
        assert pairs[..k + 1][..k] == pairs[..k];
        buckets := buckets[idx := buckets[idx] + [pairs[k]]];
      }
      assert pairs[..|pairs|] == pairs;
    }

    /** The next shard of `delete_many`; a shard without a bucket is not locked. */
    method DeleteNextBucket(ghost before: seq<NsMap>, ghost pairs: seq<Pair>, idx: nat, bucket: seq<Pair>, removed: nat)
        returns (removed': nat)
      requires Valid() && idx < SHARDS && |before| == SHARDS && bucket == PairsFor(shardOf, pairs, idx)
      requires DeletedBelow(shardOf, before, shards, pairs, idx, removed)
      modifies this`shards, this`shardBytes
      ensures Valid() && DeletedBelow(shardOf, before, shards, pairs, idx + 1, removed')
    {
      BucketMembers(shardOf, pairs, idx);
      var n := 0;
      if bucket != [] {
        n := DeleteBucket(idx, bucket);
      } else {
        NothingListed(Flatten(before[idx]));
      }
      DeletedOneShardMore(shardOf, before, old(shards), shards, pairs, idx, removed, n);
      removed' := removed + n;
    }

    /** `delete_many`: each pair that was there is removed and counted once, however
        often it is listed. */
    method DeleteMany(pairs: seq<Pair>) returns (removed: nat)
      requires Valid()
      modifies this`shards, this`shardBytes
      ensures Valid() && View() == old(View()) - PairSet(pairs)
      ensures removed == |Listed(old(View()), pairs)|
    {
      ghost var before := shards;
      var buckets := BucketPairs(pairs);
      removed := 0;
      for idx := 0 to SHARDS
        invariant Valid()
        invariant DeletedBelow(shardOf, before, shards, pairs, idx, removed)
      {
        removed := DeleteNextBucket(before, pairs, idx, buckets[idx], removed);
      }
      DeletedEverywhere(shardOf, before, shards, pairs, removed);
    }

    /** `delete_namespace`. */
    method DeleteNamespace(ns: string) returns (removed: nat)
      requires Valid()
      modifies this`shards, this`shardBytes
      ensures Valid()
      ensures View() == WithoutNs(old(View()), ns)
      ensures removed == |InNs(old(View()), ns)|
    {
      var idx := shardOf(ns);
      CountNamespace(shardOf, shards, ns);
      OneShardWithoutNs(shardOf, shards, ns);
      if ns !in shards[idx] {
        NothingToDrop(shards, idx, ns);
        return 0;
      }
      var bytes;
      bytes, removed := BytesWithout(shards[idx], shardBytes[idx], ns);
      Replace(idx, shards[idx] - {ns}, bytes);
    }

    /** `clear`, run on its own. */
    method Clear()
      requires Valid()
      modifies this`shards, this`shardBytes
      ensures Valid() && View() == map[]
    {
      for i := 0 to SHARDS
        invariant Valid()
        invariant forall j :: 0 <= j < i ==> shards[j] == map[]
      {
        assert Flatten(map[]) == map[];
        Replace(i, map[], 0);
      }
      ContentsFrom(shardOf, shards, map[]);
    }

    // ----------------------------------------------------------------- snapshots

    /** The sum over the shard counters. */
    method TotalBytes() returns (total: nat)
      requires Valid()
      ensures total == Sum(shardBytes) == SumLen(View())
    {
      total := 0;
      for i := 0 to |shardBytes|
        invariant total + Sum(shardBytes[i..]) == Sum(shardBytes)
      {
        assert shardBytes[i..][1..] == shardBytes[i + 1..];
        total := total + shardBytes[i];
      }
      SizeOfContents(shardOf, shards, shardBytes);
    }

    /** `snapshot`: what is stored, with the next id, the previous snapshot's id as its
        parent, and the history trimmed to its bound. */
    method TakeSnapshot() returns (s: SnapshotData)
      requires Valid()
      modifies this`counter, this`lastId, this`history
      ensures Valid() && GoodSnapshot(shardOf, s)
      ensures s.shards == shards && s.shardBytes == shardBytes
      ensures s.id == old(counter) && s.parent == old(lastId) && lastId == Some(s.id)
      ensures s.sizeBytes == SumLen(View())
      ensures history == Retained(old(history), s, maxHistory)
      ensures NewestRetained(old(history), s, maxHistory, history)
    {
      var total := TotalBytes();
      s := SnapshotData(counter, lastId, total, shardBytes, shards);
      RetainedIsNewest(history, s, maxHistory);
      Remember(s);
    }

    /** The end of `snapshot`, once the locks are released. */
    method Remember(s: SnapshotData)
      requires Valid() && GoodSnapshot(shardOf, s) && s.id == counter
      modifies this`counter, this`lastId, this`history
      ensures Valid() && counter == old(counter) + 1 && lastId == Some(s.id)
      ensures history == Retained(old(history), s, maxHistory)
    {
      RetainedIsGood(shardOf, maxHistory, history, s, lastId);
      var retained := Retain(history, s, maxHistory);
      counter, lastId, history := counter + 1, Some(s.id), retained;
    }

    /** The retention of `snapshot`: pushed at the back, trimmed from the front. */
    static method Retain(history: seq<SnapshotData>, s: SnapshotData, max: Option<nat>) returns (r: seq<SnapshotData>)
      requires max.Some? ==> |history| <= max.value
      ensures r == Retained(history, s, max)
    {
      if max == Some(0) { return history; }
      r := history + [s];
      if max.Some? {
        while |r| > max.value
          invariant max.value <= |r| || r == history + [s]
          invariant |r| <= |history| + 1 && r == (history + [s])[|history| + 1 - |r|..]
        {
          r := r[1..];
        }
      }
    }

    /** `restore`: both the contents and the counters of the snapshot. */
    method Restore(s: SnapshotData)
      requires Valid() && GoodSnapshot(shardOf, s)
      modifies this`shards, this`shardBytes
      ensures Valid() && View() == Contents(s.shards)
      ensures shards == s.shards && shardBytes == s.shardBytes
    {
      for i := 0 to SHARDS
        invariant Valid()
        invariant forall j :: 0 <= j < i ==> shards[j] == s.shards[j] && shardBytes[j] == s.shardBytes[j]
      {
        CountedUpdate(shards, shardBytes, i, s.shards[i], s.shardBytes[i]);
        ShardedUpdate(shardOf, shards, i, s.shards[i]);
        shards := shards[i := s.shards[i]];
        shardBytes := shardBytes[i := s.shardBytes[i]];
      }
      assert shards == s.shards && shardBytes == s.shardBytes;
    }
  }

  // ---------------------------------------------------------------- total size

  lemma MinusPlus(a: Flat, b: Flat, p: Pair)
    requires p in a && p !in b
    ensures (a + b) - {p} == (a - {p}) + b
  {
    forall q ensures Get((a + b) - {p}, q) == Get((a - {p}) + b, q) {}
    SameGets((a + b) - {p}, (a - {p}) + b);
  }

  lemma {:induction false} SumLenDisjoint(a: Flat, b: Flat)
    requires a.Keys !! b.Keys
    ensures SumLen(a + b) == SumLen(a) + SumLen(b)
    decreases |a|
  {
    if a == map[] {
      assert a + b == b;
    } else {
      var p :| p in a;
      assert p !in b;
      SumLenDisjoint(a - {p}, b);
      SumLenWithout(a, p);
      SumLenWithout(a + b, p);
      MinusPlus(a, b, p);
    }
  }

  lemma {:induction false} SizeOfSome(shardOf: string -> nat, shards: seq<NsMap>, bytes: seq<nat>, from: nat)
    requires |bytes| == |shards| && forall i :: 0 <= i < |shards| ==> bytes[i] == SumLen(Flatten(shards[i]))
    requires forall i, ns :: 0 <= i < |shards| && ns in shards[i] ==> shardOf(ns) == i + from
    ensures Sum(bytes) == SumLen(Contents(shards))
    decreases |shards|
  {
    if shards != [] {
      SizeOfSome(shardOf, shards[1..], bytes[1..], from + 1);
      forall p | p in Flatten(shards[0]) ensures p !in Contents(shards[1..]) {
        FlattenAt(shards[0], p);
        assert shardOf(p.0) == from;
        ContentsNowhere(shards[1..], p);
      }
      SumLenDisjoint(Flatten(shards[0]), Contents(shards[1..]));
    }
  }

  /** The counters add up to the length of everything stored. */
  lemma SizeOfContents(shardOf: string -> nat, shards: seq<NsMap>, bytes: seq<nat>)
    requires Sharded(shardOf, shards) && Counted(shards, bytes)
    ensures Sum(bytes) == SumLen(Contents(shards))
  {
    SizeOfSome(shardOf, shards, bytes, 0);
  }
}
