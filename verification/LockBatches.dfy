/** Batches under the lock protocol: what `set_many` and `delete_many` leave behind when
    any number of them, and of snapshots, work on the store at the same time. */
module LockBatches {
  import opened Wrappers
  import opened ByteStrings
  import opened FlatMaps
  import opened ShardedStore
  import opened LockProtocol
  import opened LockRuns

  datatype Batch = Puts(entries: seq<Entry>) | Deletes(pairs: seq<Pair>)

  function Inserts(entries: seq<Entry>): seq<Mut> {
    seq(|entries|, n requires 0 <= n < |entries| => Insert(entries[n]))
  }

  function Erases(pairs: seq<Pair>): seq<Mut> {
    seq(|pairs|, n requires 0 <= n < |pairs| => Erase(pairs[n]))
  }

  /** The part of a batch that belongs to shard `i`. */
  function Own(shardOf: string -> nat, b: Batch, i: nat): Batch {
    match b
    case Puts(entries) => Puts(EntriesOf(shardOf, entries, i))
    case Deletes(pairs) => Deletes(PairsFor(shardOf, pairs, i))
  }

  function Muts(b: Batch): seq<Mut> {
    match b
    case Puts(entries) => Inserts(entries)
    case Deletes(pairs) => Erases(pairs)
  }

  /** What a batch does to shard `i`, under one lock. */
  function Bucket(shardOf: string -> nat, b: Batch, i: nat): seq<Mut> {
    Muts(Own(shardOf, b, i))
  }

  /** The parts a batch is cut into: one for each of the first `n` shards that its bucket
      names, in ascending order. */
  function PartsBelow(shardOf: string -> nat, b: Batch, n: nat): seq<Part> {
    if n == 0 then []
    else
      var bucket := Bucket(shardOf, b, n - 1);
      PartsBelow(shardOf, b, n - 1) + if bucket == [] then [] else [Part(n - 1, bucket)]
  }

  predicate Names(b: Batch, p: Pair) {
    match b
    case Puts(entries) => LastFor(entries, p).Some?
    case Deletes(pairs) => p in pairs
  }

  /** What a batch leaves at a pair it names. */
  function Left(b: Batch, p: Pair): Option<Bytes> {
    match b
    case Puts(entries) => LastFor(entries, p)
    case Deletes(_) => None
  }

  /** What a batch makes of the whole store. */
  function Effect(f: Flat, b: Batch): Flat {
    match b
    case Puts(entries) => PutAll(f, entries)
    case Deletes(pairs) => f - PairSet(pairs)
  }

  lemma EffectAt(f: Flat, b: Batch, p: Pair)
    ensures Get(Effect(f, b), p) == if Names(b, p) then Left(b, p) else Get(f, p)
  {
    if b.Puts? { PutAllAt(f, b.entries, p); }
  }

  // ------------------------------------------------------------------- one part

  /** What a pair holds after some changes, if it held `was`. */
  function Held(muts: seq<Mut>, p: Pair, was: Option<Bytes>): Option<Bytes> {
    if muts == [] then was
    else match muts[|muts| - 1]
      case Insert(e) => if PairOf(e) == p then Some(e.value) else Held(muts[..|muts| - 1], p, was)
      case Erase(q) => if q == p then None else Held(muts[..|muts| - 1], p, was)
  }

  lemma {:induction false} LookAfter(m: NsMap, muts: seq<Mut>, p: Pair)
    ensures Look(ApplyAll(m, muts), p) == Held(muts, p, Look(m, p))
  {
    if muts != [] {
      var init := muts[..|muts| - 1];
      LookAfter(m, init, p);
      match muts[|muts| - 1]
      case Insert(e) => LookPut(ApplyAll(m, init), e, p);
      case Erase(q) => LookRemove(ApplyAll(m, init), q, p);
    }
  }

  lemma {:induction false} HeldAfterInserts(entries: seq<Entry>, p: Pair, was: Option<Bytes>)
    ensures Held(Inserts(entries), p, was) == if LastFor(entries, p).Some? then LastFor(entries, p) else was
  {
    if entries != [] {
      var last := |entries| - 1;
      HeldAfterInserts(entries[..last], p, was);
      assert entries == entries[..last] + [entries[last]];
      LastForSnoc(entries[..last], entries[last], p);
      assert Inserts(entries)[..last] == Inserts(entries[..last]);
    }
  }

  lemma {:induction false} HeldAfterErases(pairs: seq<Pair>, p: Pair, was: Option<Bytes>)
    ensures Held(Erases(pairs), p, was) == if p in pairs then None else was
  {
    if pairs != [] {
      var last := |pairs| - 1;
      HeldAfterErases(pairs[..last], p, was);
      assert p in pairs <==> p in pairs[..last] || p == pairs[last];
      assert Erases(pairs)[..last] == Erases(pairs[..last]);
    }
  }

  lemma HeldAfterMuts(b: Batch, p: Pair, was: Option<Bytes>)
    ensures Held(Muts(b), p, was) == if Names(b, p) then Left(b, p) else was
  {
    match b
    case Puts(entries) => HeldAfterInserts(entries, p, was);
    case Deletes(pairs) => HeldAfterErases(pairs, p, was);
  }

  /** In its own shard, a pair a batch names ends as the batch leaves it. */
  lemma HeldAfterBucket(shardOf: string -> nat, b: Batch, p: Pair, was: Option<Bytes>)
    ensures Held(Bucket(shardOf, b, shardOf(p.0)), p, was) == if Names(b, p) then Left(b, p) else was
  {
    HeldAfterMuts(Own(shardOf, b, shardOf(p.0)), p, was);
    match b
    case Puts(entries) => BucketKeepsLast(shardOf, entries, p);
    case Deletes(pairs) => BucketMembers(shardOf, pairs, shardOf(p.0));
  }

  /** What a writer does to a shard under its lock is, on the flat view, the part of the
      batch that belongs to the shard. */
  lemma PartIsItsBucket(shardOf: string -> nat, b: Batch, i: nat, m: NsMap)
    ensures Flatten(ApplyAll(m, Bucket(shardOf, b, i))) == Effect(Flatten(m), Own(shardOf, b, i))
  {
    var own := Own(shardOf, b, i);
    forall p ensures Look(ApplyAll(m, Muts(own)), p) == Get(Effect(Flatten(m), own), p) {
      LookAfter(m, Muts(own), p);
      HeldAfterMuts(own, p, Look(m, p));
      EffectAt(Flatten(m), own, p);
      FlattenAt(m, p);
    }
    FlattenIs(ApplyAll(m, Muts(own)), Effect(Flatten(m), own));
  }

  // ------------------------------------------------------- shards stay apart

  function NsOf(mut: Mut): string {
    match mut
    case Insert(e) => e.ns
    case Erase(p) => p.0
  }

  ghost predicate InShard(shardOf: string -> nat, i: nat, m: NsMap) {
    NoEmpty(m) && forall ns :: ns in m ==> shardOf(ns) == i
  }

  lemma BucketBelongs(shardOf: string -> nat, b: Batch, i: nat)
    ensures forall mut :: mut in Bucket(shardOf, b, i) ==> shardOf(NsOf(mut)) == i
  {
    match b
    case Puts(entries) => BucketEntriesBelong(shardOf, entries, i);
    case Deletes(pairs) => BucketMembers(shardOf, pairs, i);
  }

  lemma {:induction false} ApplyStaysInShard(shardOf: string -> nat, i: nat, m: NsMap, muts: seq<Mut>)
    requires InShard(shardOf, i, m) && forall mut :: mut in muts ==> shardOf(NsOf(mut)) == i
    ensures InShard(shardOf, i, ApplyAll(m, muts))
  {
    if muts != [] {
      var init := muts[..|muts| - 1];
      var last := muts[|muts| - 1];
      assert last in muts;
      ApplyStaysInShard(shardOf, i, m, init);
      match last
      case Insert(e) => FlattenPut(ApplyAll(m, init), e);
      case Erase(q) => FlattenRemove(ApplyAll(m, init), q);
    }
  }

  // ------------------------------------------------------------------- one shard

  /** `w` is what one of the batches does to shard `i`. */
  ghost predicate OfSome(shardOf: string -> nat, work: seq<Option<Batch>>, i: nat, w: Whole) {
    exists t :: 0 <= t < |work| && OfBatch(shardOf, work[t], i, w)
  }

  predicate OfBatch(shardOf: string -> nat, b: Option<Batch>, i: nat, w: Whole) {
    b.Some? && w == WholePart(Bucket(shardOf, b.value, i)) && w.muts != []
  }

  /** Some batch names the pair and leaves `v` there. */
  ghost predicate LeftBySome(work: seq<Option<Batch>>, p: Pair, v: Option<Bytes>) {
    exists t :: 0 <= t < |work| && LeftBy(work[t], p, v)
  }

  predicate NamedBy(b: Option<Batch>, p: Pair) {
    b.Some? && Names(b.value, p)
  }

  predicate LeftBy(b: Option<Batch>, p: Pair, v: Option<Bytes>) {
    NamedBy(b, p) && v == Left(b.value, p)
  }

  ghost predicate NoneNames(work: seq<Option<Batch>>, p: Pair) {
    forall t :: 0 <= t < |work| ==> !NamedBy(work[t], p)
  }

  /** Nothing in the log changes what the pair holds. */
  ghost predicate Passes(log: seq<Whole>, p: Pair) {
    forall w, was :: w in log && w.WholePart? ==> Held(w.muts, p, was) == was
  }

  lemma {:induction false} ReplayLeaves(shardOf: string -> nat, work: seq<Option<Batch>>, init: NsMap,
                                        log: seq<Whole>, p: Pair)
    requires forall w :: w in log ==> OfSome(shardOf, work, shardOf(p.0), w)
    ensures var v := Look(Replay(init, log), p);
            LeftBySome(work, p, v) || (v == Look(init, p) && Passes(log, p))
  {
    if log != [] {
      var before := log[..|log| - 1];
      var w := log[|log| - 1];
      assert w in log;
      ReplayLeaves(shardOf, work, init, before, p);
      assert OfSome(shardOf, work, shardOf(p.0), w);
      var t :| 0 <= t < |work| && OfBatch(shardOf, work[t], shardOf(p.0), w);
      LookAfter(Replay(init, before), w.muts, p);
      forall was ensures Held(w.muts, p, was) == if Names(work[t].value, p) then Left(work[t].value, p) else was {
        HeldAfterBucket(shardOf, work[t].value, p, was);
      }
      if Names(work[t].value, p) {
        assert LeftBy(work[t], p, Look(Replay(init, log), p));
      } else {
        assert forall x :: x in log ==> x in before || x == w;
      }
    }
  }

  lemma {:induction false} ReplayStaysInShard(shardOf: string -> nat, work: seq<Option<Batch>>, i: nat, init: NsMap,
                                              log: seq<Whole>)
    requires InShard(shardOf, i, init) && forall w :: w in log ==> OfSome(shardOf, work, i, w)
    ensures InShard(shardOf, i, Replay(init, log))
  {
    if log != [] {
      var before := log[..|log| - 1];
      var w := log[|log| - 1];
      assert w in log;
      ReplayStaysInShard(shardOf, work, i, init, before);
      assert OfSome(shardOf, work, i, w);
      var t :| 0 <= t < |work| && OfBatch(shardOf, work[t], i, w);
      BucketBelongs(shardOf, work[t].value, i);
      ApplyStaysInShard(shardOf, i, Replay(init, before), w.muts);
    }
  }

  // --------------------------------------------------------------------- the logs

  /** Thread `t` works through `work[t]`, or takes a snapshot. */
  predicate WorksOn(shardOf: string -> nat, th: Thread, b: Option<Batch>) {
    if b.Some? then th.Writer? && th.parts == PartsBelow(shardOf, b.value, SHARDS) else th.Snapshotter?
  }

  ghost predicate AllWork(shardOf: string -> nat, work: seq<Option<Batch>>, threads: seq<Thread>) {
    |threads| == |work| && forall t :: 0 <= t < |work| ==> WorksOn(shardOf, threads[t], work[t])
  }

  ghost predicate OnlyParts(s: State) {
    forall i, w :: 0 <= i < |s.cells| && w in s.cells[i].log ==> w.WholePart?
  }

  lemma StepKeepsWork(shardOf: string -> nat, work: seq<Option<Batch>>, s: State, t: nat, s': State)
    requires AllWork(shardOf, work, s.threads) && OnlyParts(s) && Step(s, t, s')
    ensures AllWork(shardOf, work, s'.threads) && OnlyParts(s')
  {
    assert WorksOn(shardOf, s.threads[t], work[t]);
  }

  lemma {:induction false} RunKeepsWork(shardOf: string -> nat, work: seq<Option<Batch>>, init: seq<NsMap>,
                                        run: seq<State>, who: seq<nat>)
    requires Run(init, run, who) && AllWork(shardOf, work, run[0].threads)
    ensures AllWork(shardOf, work, run[|who|].threads) && OnlyParts(run[|who|])
    decreases |who|
  {
    if |who| > 0 {
      var n := |who| - 1;
      assert Run(init, run[..n + 1], who[..n]);
      RunKeepsWork(shardOf, work, init, run[..n + 1], who[..n]);
      StepKeepsWork(shardOf, work, run[n], who[n], run[n + 1]);
    }
  }

  lemma {:induction false} LogMembers(log: seq<Whole>, muts: seq<Mut>)
    ensures WholePart(muts) in log <==> muts in PartsIn(log)
  {
    if log != [] {
      LogMembers(log[..|log| - 1], muts);
      assert WholePart(muts) in log <==> WholePart(muts) in log[..|log| - 1] || WholePart(muts) == log[|log| - 1];
    }
  }

  lemma {:induction false} ApplierOf(threads: seq<Thread>, i: nat, muts: seq<Mut>) returns (t: nat)
    requires muts in AppliedByAll(threads, i)
    ensures t < |threads| && muts in Applied(threads[t], i)
  {
    var last := |threads| - 1;
    if muts in AppliedByAll(threads[..last], i) {
      t := ApplierOf(threads[..last], i, muts);
    } else {
      t := last;
    }
  }

  lemma {:induction false} AppliedByOne(threads: seq<Thread>, i: nat, muts: seq<Mut>, t: nat)
    requires t < |threads| && muts in Applied(threads[t], i)
    ensures muts in AppliedByAll(threads, i)
    decreases |threads|
  {
    var last := |threads| - 1;
    if t < last { AppliedByOne(threads[..last], i, muts, t); }
  }

  lemma AppliedMembers(threads: seq<Thread>, i: nat, muts: seq<Mut>)
    ensures muts in AppliedByAll(threads, i) <==> exists t :: 0 <= t < |threads| && muts in Applied(threads[t], i)
  {
    if muts in AppliedByAll(threads, i) {
      var t := ApplierOf(threads, i, muts);
    }
    if t :| 0 <= t < |threads| && muts in Applied(threads[t], i) {
      AppliedByOne(threads, i, muts, t);
    }
  }

  /** A batch of these parts does `muts` to shard `i`. */
  ghost predicate HasPart(parts: seq<Part>, i: nat, muts: seq<Mut>) {
    muts in PartsAt(parts, i, |parts|)
  }

  lemma {:induction false} PartsOfBatch(shardOf: string -> nat, b: Batch, i: nat, n: nat, muts: seq<Mut>)
    ensures HasPart(PartsBelow(shardOf, b, n), i, muts) <==> i < n && muts == Bucket(shardOf, b, i) && muts != []
  {
    if n > 0 {
      PartsOfBatch(shardOf, b, i, n - 1, muts);
      OneBucketMore(PartsBelow(shardOf, b, n - 1), Bucket(shardOf, b, n - 1), n - 1, i, muts);
    }
  }

  lemma OneBucketMore(parts: seq<Part>, bucket: seq<Mut>, k: nat, i: nat, muts: seq<Mut>)
    ensures var more := parts + if bucket == [] then [] else [Part(k, bucket)];
            HasPart(more, i, muts) <==> HasPart(parts, i, muts) || (k == i && muts == bucket && muts != [])
  {
    if bucket == [] {
      assert parts + [] == parts;
    } else {
      OnePartMore(parts, Part(k, bucket), i);
    }
  }

  lemma OnePartMore(parts: seq<Part>, part: Part, i: nat)
    ensures PartsAt(parts + [part], i, |parts| + 1)
              == PartsAt(parts, i, |parts|) + if part.shard == i then multiset{part.muts} else multiset{}
  {
    SameParts(parts, parts + [part], i, |parts|);
  }

  lemma {:induction false} SameParts(a: seq<Part>, b: seq<Part>, i: nat, n: nat)
    requires n <= |a| <= |b| && a == b[..|a|]
    ensures PartsAt(a, i, n) == PartsAt(b, i, n)
  {
    if n > 0 {
      SameParts(a, b, i, n - 1);
      assert a[n - 1] == b[n - 1];
    }
  }

  /** When all threads are done, the log of a shard holds the buckets of the batches, and
      nothing else. */
  lemma FinishedLog(shardOf: string -> nat, work: seq<Option<Batch>>, s: State, i: nat, w: Whole)
    requires AllWork(shardOf, work, s.threads) && OnlyParts(s) && NothingLost(s) && i < |s.cells| && i < SHARDS
    requires forall t :: 0 <= t < |s.threads| ==> Done(s.threads[t]) && WellIndexed(s.threads[t])
    ensures w in s.cells[i].log <==> OfSome(shardOf, work, i, w)
  {
    if w.WholePart? {
      LogMembers(s.cells[i].log, w.muts);
      AppliedMembers(s.threads, i, w.muts);
      forall t | 0 <= t < |work|
        ensures w.muts in Applied(s.threads[t], i) <==> OfBatch(shardOf, work[t], i, w)
      {
        assert WorksOn(shardOf, s.threads[t], work[t]);
        if work[t].Some? {
          PartsOfBatch(shardOf, work[t].value, i, SHARDS, w.muts);
        }
      }
    }
  }

  /** And until then nothing but buckets of the batches. */
  lemma LogIsOfBatches(shardOf: string -> nat, work: seq<Option<Batch>>, s: State, i: nat, w: Whole)
    requires AllWork(shardOf, work, s.threads) && OnlyParts(s) && NothingLost(s) && i < |s.cells| && i < SHARDS
    requires w in s.cells[i].log
    ensures OfSome(shardOf, work, i, w)
  {
    LogMembers(s.cells[i].log, w.muts);
    AppliedMembers(s.threads, i, w.muts);
    var t :| 0 <= t < |s.threads| && w.muts in Applied(s.threads[t], i);
    assert WorksOn(shardOf, s.threads[t], work[t]);
    AppliedIsAPart(s.threads[t], i, w.muts);
    PartsOfBatch(shardOf, work[t].value, i, SHARDS, w.muts);
    assert OfBatch(shardOf, work[t], i, w);
  }

  lemma AppliedIsAPart(th: Thread, i: nat, muts: seq<Mut>)
    requires muts in Applied(th, i)
    ensures th.Writer? && HasPart(th.parts, i, muts)
  {
    PartsOnlyGrow(th.parts, i, if th.w.Counted? && th.k < |th.parts| then th.k + 1 else th.k, muts);
  }

  lemma {:induction false} PartsOnlyGrow(parts: seq<Part>, i: nat, n: nat, muts: seq<Mut>)
    requires n <= |parts| && muts in PartsAt(parts, i, n)
    ensures HasPart(parts, i, muts)
    decreases |parts| - n
  {
    if n < |parts| { PartsOnlyGrow(parts, i, n + 1, muts); }
  }

  // ------------------------------------------------------------------ whole runs

  function Maps(cells: seq<Cell>): seq<NsMap> {
    seq(|cells|, i requires 0 <= i < |cells| => cells[i].m)
  }

  ghost predicate AllDone(s: State) {
    forall t :: 0 <= t < |s.threads| ==> Done(s.threads[t])
  }

  /** Any number of batches and snapshots at once: when they are done, the store is one
      flat map again, in which a pair no batch names is as it was, and a pair that some
      name is as one of those leaves it. */
  lemma PairsEndAsABatchLeavesThem(shardOf: string -> nat, work: seq<Option<Batch>>, init: seq<NsMap>,
                                   run: seq<State>, who: seq<nat>)
    requires Run(init, run, who) && AllWork(shardOf, work, run[0].threads) && Sharded(shardOf, init)
    requires AllDone(run[|who|])
    ensures var after := Maps(run[|who|].cells);
            && Sharded(shardOf, after)
            && forall p: Pair ::
                 if NoneNames(work, p) then Get(Contents(after), p) == Get(Contents(init), p)
                 else LeftBySome(work, p, Get(Contents(after), p))
  {
    var s := run[|who|];
    RunKeepsInv(init, run, who);
    RunKeepsWork(shardOf, work, init, run, who);
    EveryPartIsAppliedOnce(init, run, who);
    var after := Maps(s.cells);
    forall i: nat | i < SHARDS ensures FinishedShard(shardOf, work, init[i], i, s.cells[i]) {
      ShardFinishes(shardOf, work, init, s, i);
    }
    FinishedShards(shardOf, work, init, s.cells);
    forall p: Pair
      ensures if NoneNames(work, p) then Get(Contents(after), p) == Get(Contents(init), p)
              else LeftBySome(work, p, Get(Contents(after), p))
    {
      FinishedPair(shardOf, work, init, s.cells, p);
    }
  }

  /** The shard holds what its log says, and the log what the batches say. */
  ghost predicate FinishedShard(shardOf: string -> nat, work: seq<Option<Batch>>, init: NsMap, i: nat, c: Cell) {
    c.m == Replay(init, c.log) && forall w :: w in c.log <==> OfSome(shardOf, work, i, w)
  }

  lemma ShardFinishes(shardOf: string -> nat, work: seq<Option<Batch>>, init: seq<NsMap>, s: State, i: nat)
    requires Inv(init, s) && AllWork(shardOf, work, s.threads) && OnlyParts(s) && NothingLost(s) && AllDone(s)
    requires i < SHARDS
    ensures FinishedShard(shardOf, work, init[i], i, s.cells[i])
  {
    forall w ensures w in s.cells[i].log <==> OfSome(shardOf, work, i, w) {
      FinishedLog(shardOf, work, s, i, w);
    }
    forall t | 0 <= t < |s.threads| ensures !HoldsWrite(s.threads[t], i) {
      if HoldsWrite(s.threads[t], i) { HoldsOnlyLower(s.threads[t], i); }
    }
    assert CellOk(s.threads, i, init[i], s.cells[i]);
  }

  lemma FinishedShards(shardOf: string -> nat, work: seq<Option<Batch>>, init: seq<NsMap>, cells: seq<Cell>)
    requires |cells| == SHARDS && Sharded(shardOf, init)
    requires forall i: nat :: i < SHARDS ==> FinishedShard(shardOf, work, init[i], i, cells[i])
    ensures Sharded(shardOf, Maps(cells))
  {
    forall i: nat | i < SHARDS ensures InShard(shardOf, i, Maps(cells)[i]) {
      assert FinishedShard(shardOf, work, init[i], i, cells[i]);
      ReplayStaysInShard(shardOf, work, i, init[i], cells[i].log);
    }
  }

  lemma FinishedPair(shardOf: string -> nat, work: seq<Option<Batch>>, init: seq<NsMap>, cells: seq<Cell>, p: Pair)
    requires |cells| == SHARDS && Sharded(shardOf, init) && Sharded(shardOf, Maps(cells))
    requires FinishedShard(shardOf, work, init[shardOf(p.0)], shardOf(p.0), cells[shardOf(p.0)])
    ensures if NoneNames(work, p) then Get(Contents(Maps(cells)), p) == Get(Contents(init), p)
            else LeftBySome(work, p, Get(Contents(Maps(cells)), p))
  {
    var i := shardOf(p.0);
    ContentsAt(shardOf, init, p);
    ContentsAt(shardOf, Maps(cells), p);
    ReplayLeaves(shardOf, work, init[i], cells[i].log, p);
    if t :| 0 <= t < |work| && NamedBy(work[t], p) {
      NamedIsLogged(shardOf, work, t, p, cells[i].log);
    }
  }

  /** A batch that names a pair has a bucket for its shard, and the bucket changes it. */
  lemma NamedIsLogged(shardOf: string -> nat, work: seq<Option<Batch>>, t: nat, p: Pair, log: seq<Whole>)
    requires t < |work| && NamedBy(work[t], p)
    requires forall w :: w in log <==> OfSome(shardOf, work, shardOf(p.0), w)
    ensures !Passes(log, p)
  {
    var bucket := Bucket(shardOf, work[t].value, shardOf(p.0));
    HeldAfterBucket(shardOf, work[t].value, p, None);
    HeldAfterBucket(shardOf, work[t].value, p, Some([]));
    assert OfBatch(shardOf, work[t], shardOf(p.0), WholePart(bucket));
    assert WholePart(bucket) in log;
  }

  /** A snapshot taken among them holds every pair as it was before, or as some batch that
      names it leaves it: a value a batch puts only to replace it again is in none. */
  lemma SnapshotSeesWholeBatches(shardOf: string -> nat, work: seq<Option<Batch>>, init: seq<NsMap>,
                                 run: seq<State>, who: seq<nat>, t: nat, p: Pair)
    requires Run(init, run, who) && AllWork(shardOf, work, run[0].threads) && Sharded(shardOf, init)
    requires t < |run[|who|].threads| && HasSeen(run[|who|].threads[t]) && Done(run[|who|].threads[t])
    ensures var copied := run[|who|].threads[t].s.copied;
            && |copied| == SHARDS
            && var v := Look(copied[shardOf(p.0)], p);
               v == Look(init[shardOf(p.0)], p) || LeftBySome(work, p, v)
  {
    var j := SnapshotIsOneInstant(init, run, who, t);
    var i := shardOf(p.0);
    assert Run(init, run[..j + 1], who[..j]);
    RunKeepsWork(shardOf, work, init, run[..j + 1], who[..j]);
    EveryPartIsAppliedOnce(init, run[..j + 1], who[..j]);
    forall w | w in run[j].cells[i].log ensures OfSome(shardOf, work, i, w) {
      LogIsOfBatches(shardOf, work, run[j], i, w);
    }
    ReplayLeaves(shardOf, work, init[i], run[j].cells[i].log, p);
  }

  /** One batch among any number of snapshots does to the store what it does to a flat map:
      `set_many` and `delete_many` of the store, run under the locks. */
  lemma OneBatchIsItsEffect(shardOf: string -> nat, work: seq<Option<Batch>>, t: nat, init: seq<NsMap>,
                            run: seq<State>, who: seq<nat>)
    requires Run(init, run, who) && AllWork(shardOf, work, run[0].threads) && Sharded(shardOf, init)
    requires AllDone(run[|who|])
    requires t < |work| && work[t].Some? && forall u :: 0 <= u < |work| && u != t ==> work[u].None?
    ensures Contents(Maps(run[|who|].cells)) == Effect(Contents(init), work[t].value)
  {
    PairsEndAsABatchLeavesThem(shardOf, work, init, run, who);
    var before, after := Contents(init), Contents(Maps(run[|who|].cells));
    forall p: Pair ensures Get(after, p) == Get(Effect(before, work[t].value), p) {
      OneBatchAt(work, t, before, after, p);
    }
    SameGets(after, Effect(before, work[t].value));
  }

  lemma OneBatchAt(work: seq<Option<Batch>>, t: nat, before: Flat, after: Flat, p: Pair)
    requires t < |work| && work[t].Some? && forall u :: 0 <= u < |work| && u != t ==> work[u].None?
    requires if NoneNames(work, p) then Get(after, p) == Get(before, p) else LeftBySome(work, p, Get(after, p))
    ensures Get(after, p) == Get(Effect(before, work[t].value), p)
  {
    EffectAt(before, work[t].value, p);
    if Names(work[t].value, p) {
      assert NamedBy(work[t], p);
    }
  }
}
