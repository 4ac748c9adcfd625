/** The saver itself: the methods of `SwarmStateSaver`, over a store it may share with
    other savers, proved to compute the functions of `CheckpointRows`. */
module Saver {
  import opened Wrappers
  import opened Ids
  import opened WriteKeys
  import opened CheckpointRows
  import opened LatestPointer
  import opened PendingWrites
  import opened RowLaws

  /** `_MAX_HINTS`. */
  const MAX_HINTS: nat := 4096

  /** `_PRUNE_SLACK`. */
  const PRUNE_SLACK: nat := 8

  /** The store, as the rows of every thread in it. */
  class KvStore {
    var places: Places
    const indexesMaxKey: bool

    constructor (indexesMaxKey: bool)
      ensures places == map[] && this.indexesMaxKey == indexesMaxKey
    {
      this.indexesMaxKey := indexesMaxKey;
      places := map[];
    }
  }

  // ------------------------------------------------------- sequences of writes

  function Reverse<T>(s: seq<T>): (r: seq<T>)
    ensures |r| == |s|
  {
    if s == [] then [] else Reverse(s[1..]) + [s[0]]
  }

  lemma {:induction false} ReverseConcat<T>(a: seq<T>, b: seq<T>)
    ensures Reverse(a + b) == Reverse(b) + Reverse(a)
  {
    if a == [] {
      assert a + b == b;
    } else {
      assert (a + b)[1..] == a[1..] + b;
      ReverseConcat(a[1..], b);
    }
  }

  lemma {:induction false} ReverseTwice<T>(s: seq<T>)
    ensures Reverse(Reverse(s)) == s
  {
    if s != [] {
      ReverseTwice(s[1..]);
      ReverseConcat(Reverse(s[1..]), [s[0]]);
      assert Reverse([s[0]]) == [s[0]];
    }
  }

  lemma {:induction false} ToChannelsConcat(a: seq<Write>, b: seq<Write>, chs: set<Channel>)
    ensures ToChannels(a + b, chs) == ToChannels(a, chs) + ToChannels(b, chs)
  {
    if b == [] {
      assert a + b == a;
    } else {
      assert (a + b)[..|a + b| - 1] == a + b[..|b| - 1];
      ToChannelsConcat(a, b[..|b| - 1], chs);
    }
  }

  lemma {:induction false} ToChannelsNarrow(s: seq<Write>, many: set<Channel>, ch: Channel)
    requires ch in many
    ensures ToChannels(ToChannels(s, many), {ch}) == ToChannels(s, {ch})
  {
    if s != [] {
      var w := s[|s| - 1];
      ToChannelsNarrow(s[..|s| - 1], many, ch);
      if w.channel in many {
        ToChannelsConcat(ToChannels(s[..|s| - 1], many), [w], {ch});
        assert ToChannels([w], {ch}) == if w.channel == ch then [w] else [];
      }
    }
  }

  lemma {:induction false} ToChannelsOnlyThose(s: seq<Write>, chs: set<Channel>)
    ensures forall i :: 0 <= i < |ToChannels(s, chs)| ==> ToChannels(s, chs)[i].channel in chs
  {
    if s != [] { ToChannelsOnlyThose(s[..|s| - 1], chs); }
  }

  // ------------------------------------------------------------- the fused walk

  /** What the fused walk has found when it stands at `cursor`: for a channel still
      looked for, the independent walk is what an independent walk from `cursor` gives,
      followed by what has been collected; for the others it is already complete. */
  ghost predicate WalkSoFar(t: ThreadRows, start: Option<Id>, cursor: Option<Id>, channels: set<Channel>,
                            remaining: set<Channel>, collected: map<Channel, seq<Write>>, seeds: map<Channel, Value>)
    requires ParentsOlder(t)
  {
    && remaining <= channels && collected.Keys == channels && seeds.Keys == channels - remaining
    && StillWalkingAll(t, start, cursor, remaining, collected)
    && WalkedAll(t, start, channels - remaining, collected, seeds)
  }

  ghost predicate StillWalkingAll(t: ThreadRows, start: Option<Id>, cursor: Option<Id>, remaining: set<Channel>,
                                  collected: map<Channel, seq<Write>>)
    requires ParentsOlder(t) && remaining <= collected.Keys
  {
    forall ch :: ch in remaining ==> StillWalking(t, start, cursor, ch, collected[ch])
  }

  ghost predicate WalkedAll(t: ThreadRows, start: Option<Id>, done: set<Channel>, collected: map<Channel, seq<Write>>,
                            seeds: map<Channel, Value>)
    requires ParentsOlder(t) && done <= collected.Keys && done <= seeds.Keys
  {
    forall ch :: ch in done ==> Walk(t, start, ch) == History(Reverse(collected[ch]), Some(seeds[ch]))
  }

  ghost predicate StillWalking(t: ThreadRows, start: Option<Id>, cursor: Option<Id>, ch: Channel, found: seq<Write>)
    requires ParentsOlder(t)
  {
    var older := Walk(t, cursor, ch);
    Walk(t, start, ch) == History(older.writes + Reverse(found), older.seed)
  }

  lemma OlderFirst(found: seq<Write>, mine: seq<Write>)
    ensures Reverse(found + Reverse(mine)) == mine + Reverse(found)
  {
    ReverseConcat(found, Reverse(mine));
    ReverseTwice(mine);
  }

  /** One checkpoint further up, for one channel. */
  lemma WalkOneStep(t: ThreadRows, start: Option<Id>, id: Id, ch: Channel, found: seq<Write>, found': seq<Write>)
    requires ParentsOlder(t) && id in t.ck
    requires StillWalking(t, start, Some(id), ch, found)
    requires found' == found + Reverse(ToChannels(Pending(t, id), {ch}))
    ensures var held := AllValues(t, t.ck[id]);
            if ch in held then Walk(t, start, ch) == History(Reverse(found'), Some(held[ch]))
            else StillWalking(t, start, t.ck[id].parent, ch, found')
  {
    var mine := ToChannels(Pending(t, id), {ch});
    OlderFirst(found, mine);
    if ch !in AllValues(t, t.ck[id]) {
      WalkOneStepUp(Walk(t, start, ch), Walk(t, Some(id), ch), Walk(t, t.ck[id].parent, ch), mine, found, found');
    }
  }

  lemma WalkOneStepUp(all: History, here: History, older: History, mine: seq<Write>, found: seq<Write>,
                      found': seq<Write>)
    requires all == History(here.writes + Reverse(found), here.seed)
    requires here == History(older.writes + mine, older.seed)
    requires Reverse(found') == mine + Reverse(found)
    ensures all == History(older.writes + Reverse(found'), older.seed)
  {
    assert (older.writes + mine) + Reverse(found) == older.writes + (mine + Reverse(found));
  }

  /** The writes of checkpoint `id` went to the channels still looked for. */
  ghost predicate CollectedMore(t: ThreadRows, id: Id, channels: set<Channel>, remaining: set<Channel>,
                                collected: map<Channel, seq<Write>>, collected': map<Channel, seq<Write>>)
  {
    && collected.Keys == collected'.Keys == channels && remaining <= channels
    && forall ch :: ch in channels ==>
         collected'[ch] == collected[ch] + if ch in remaining then Reverse(ToChannels(Pending(t, id), {ch})) else []
  }

  lemma WalkStillOpen(t: ThreadRows, start: Option<Id>, id: Id, channels: set<Channel>, remaining: set<Channel>,
                      collected: map<Channel, seq<Write>>, collected': map<Channel, seq<Write>>)
    requires ParentsOlder(t) && id in t.ck
    requires CollectedMore(t, id, channels, remaining, collected, collected')
    requires StillWalkingAll(t, start, Some(id), remaining, collected)
    ensures var present := Held(t, t.ck[id], remaining);
            && StillWalkingAll(t, start, t.ck[id].parent, remaining - present.Keys, collected')
            && WalkedAll(t, start, present.Keys, collected', present)
  {
    forall ch | ch in remaining
      ensures var held := AllValues(t, t.ck[id]);
              if ch in held then Walk(t, start, ch) == History(Reverse(collected'[ch]), Some(held[ch]))
              else StillWalking(t, start, t.ck[id].parent, ch, collected'[ch])
    {
      WalkOneStep(t, start, id, ch, collected[ch], collected'[ch]);
    }
  }

  lemma WalkedStay(t: ThreadRows, start: Option<Id>, id: Id, channels: set<Channel>, remaining: set<Channel>,
                   collected: map<Channel, seq<Write>>, seeds: map<Channel, Value>, collected': map<Channel, seq<Write>>)
    requires ParentsOlder(t) && seeds.Keys == channels - remaining
    requires CollectedMore(t, id, channels, remaining, collected, collected')
    requires WalkedAll(t, start, channels - remaining, collected, seeds)
    ensures WalkedAll(t, start, channels - remaining, collected', seeds)
  {
    forall ch | ch in channels - remaining ensures collected'[ch] == collected[ch] {
      assert collected[ch] + [] == collected[ch];
    }
  }

  lemma WalkedJoin(t: ThreadRows, start: Option<Id>, seeds: map<Channel, Value>, found: map<Channel, Value>,
                   collected: map<Channel, seq<Write>>, all: set<Channel>)
    requires ParentsOlder(t) && seeds.Keys <= collected.Keys && found.Keys <= collected.Keys && seeds.Keys !! found.Keys
    requires WalkedAll(t, start, seeds.Keys, collected, seeds) && WalkedAll(t, start, found.Keys, collected, found)
    requires all == seeds.Keys + found.Keys
    ensures WalkedAll(t, start, all, collected, seeds + found)
  {
  }

  lemma WalkAllSteps(t: ThreadRows, start: Option<Id>, id: Id, channels: set<Channel>, remaining: set<Channel>,
                     collected: map<Channel, seq<Write>>, seeds: map<Channel, Value>,
                     collected': map<Channel, seq<Write>>)
    requires ParentsOlder(t) && id in t.ck
    requires WalkSoFar(t, start, Some(id), channels, remaining, collected, seeds)
    requires CollectedMore(t, id, channels, remaining, collected, collected')
    ensures var present := Held(t, t.ck[id], remaining);
            WalkSoFar(t, start, t.ck[id].parent, channels, remaining - present.Keys, collected', seeds + present)
  {
    var present := Held(t, t.ck[id], remaining);
    WalkStillOpen(t, start, id, channels, remaining, collected, collected');
    WalkedStay(t, start, id, channels, remaining, collected, seeds, collected');
    WalkedJoin(t, start, seeds, present, collected', channels - (remaining - present.Keys));
  }

  /** The inner loop of the fused walk: a checkpoint's writes, newest first, each put
      on its own channel's list. */
  method CollectNewestFirst(writes: seq<Write>, remaining: set<Channel>, collected: map<Channel, seq<Write>>)
      returns (r: map<Channel, seq<Write>>)
    requires remaining <= collected.Keys
    requires forall i :: 0 <= i < |writes| ==> writes[i].channel in remaining
    ensures r.Keys == collected.Keys
    ensures forall ch :: ch in collected ==> r[ch] == collected[ch] + Reverse(ToChannels(writes, {ch}))
  {
    r := collected;
    var j := |writes|;
    assert writes[j..] == [];
    while j > 0
      invariant 0 <= j <= |writes|
      invariant r.Keys == collected.Keys
      invariant forall ch :: ch in collected ==> r[ch] == collected[ch] + Reverse(ToChannels(writes[j..], {ch}))
    {
      j := j - 1;
      var w := writes[j];
      ghost var before := r;
      r := r[w.channel := r[w.channel] + [w]];
      forall ch | ch in collected ensures r[ch] == collected[ch] + Reverse(ToChannels(writes[j..], {ch})) {
        OneMoreWrite(writes, j, ch);
        assert before[ch] == collected[ch] + Reverse(ToChannels(writes[j + 1..], {ch}));
      }
    }
    assert writes[0..] == writes;
  }

  lemma OneMoreWrite(writes: seq<Write>, j: nat, ch: Channel)
    requires j < |writes|
    ensures Reverse(ToChannels(writes[j..], {ch}))
              == Reverse(ToChannels(writes[j + 1..], {ch})) + if writes[j].channel == ch then [writes[j]] else []
  {
    var w := writes[j];
    assert writes[j..] == [w] + writes[j + 1..];
    ToChannelsConcat([w], writes[j + 1..], {ch});
    assert ToChannels([w], {ch}) == if w.channel == ch then [w] else [];
    ReverseConcat(ToChannels([w], {ch}), ToChannels(writes[j + 1..], {ch}));
  }

  lemma {:induction false} NoneToOthers(s: seq<Write>, chs: set<Channel>, ch: Channel)
    requires forall i :: 0 <= i < |s| ==> s[i].channel in chs
    requires ch !in chs
    ensures ToChannels(s, {ch}) == []
  {
    if s != [] { NoneToOthers(s[..|s| - 1], chs, ch); }
  }

  /** One checkpoint's writes to the channels still looked for. */
  method CollectFrom(t: ThreadRows, id: Id, remaining: set<Channel>, collected: map<Channel, seq<Write>>)
      returns (r: map<Channel, seq<Write>>)
    requires remaining <= collected.Keys
    ensures CollectedMore(t, id, collected.Keys, remaining, collected, r)
  {
    var mine := ToChannels(Pending(t, id), remaining);
    ToChannelsOnlyThose(Pending(t, id), remaining);
    r := CollectNewestFirst(mine, remaining, collected);
    forall ch | ch in collected
      ensures r[ch] == collected[ch] + if ch in remaining then Reverse(ToChannels(Pending(t, id), {ch})) else []
    {
      if ch in remaining {
        ToChannelsNarrow(Pending(t, id), remaining, ch);
      } else {
        NoneToOthers(mine, remaining, ch);
      }
    }
  }

  lemma WalkStarts(t: ThreadRows, start: Option<Id>, channels: set<Channel>)
    requires ParentsOlder(t)
    ensures WalkSoFar(t, start, start, channels, channels, map ch | ch in channels :: [], map[])
  {
    forall ch | ch in channels ensures StillWalking(t, start, start, ch, []) {
      assert Walk(t, start, ch).writes + [] == Walk(t, start, ch).writes;
    }
  }

  lemma WalkEnds(t: ThreadRows, start: Option<Id>, cursor: Option<Id>, channels: set<Channel>,
                 remaining: set<Channel>, collected: map<Channel, seq<Write>>, seeds: map<Channel, Value>)
    requires ParentsOlder(t) && WalkSoFar(t, start, cursor, channels, remaining, collected, seeds)
    requires remaining == {} || cursor.None? || cursor.value !in t.ck
    ensures forall ch :: ch in channels ==>
              Walk(t, start, ch) == History(Reverse(collected[ch]), if ch in seeds then Some(seeds[ch]) else None)
  {
    forall ch | ch in remaining ensures Walk(t, start, ch) == History(Reverse(collected[ch]), None) {
      assert StillWalking(t, start, cursor, ch, collected[ch]);
      assert [] + Reverse(collected[ch]) == Reverse(collected[ch]);
    }
  }

  // ---------------------------------------------------------------- the class

  /** The kinds of rows a thread has. */
  datatype RowKind = CheckpointRow | WriteRow | BlobRow | PointerRow

  class SwarmStateSaver {
    const store: KvStore
    const incremental: bool
    const limit: Option<Keep>         // `max_checkpoints_per_thread`
    var maxSeen: map<Place, Id>
    var pruneFloor: map<Place, nat>

    constructor (store: KvStore, incremental: bool, limit: Option<Keep>)
      ensures this.store == store && this.incremental == incremental && this.limit == limit
      ensures maxSeen == map[] && pruneFloor == map[]
    {
      this.store := store;
      this.incremental := incremental;
      this.limit := limit;
      maxSeen := map[];
      pruneFloor := map[];
    }

    function Rows(p: Place): ThreadRows
      reads store
    {
      RowsAt(store.places, p)
    }

    /** `_delta_ancestors`. */
    method FindDeltaAncestors(p: Place, survivors: seq<Id>) returns (needed: set<Id>)
      requires ParentsOlder(Rows(p))
      ensures needed == DeltaAncestors(Rows(p), Elements(survivors))
    {
      var t := Rows(p);
      needed := {};
      assert survivors[..0] == [];
      for i := 0 to |survivors|
        invariant needed == DeltaAncestors(t, Elements(survivors[..i]))
      {
        var id := survivors[i];
        ghost var before := needed;
        if id in t.ck {
          var missing := t.ck[id].md.delta - Held(t, t.ck[id], t.ck[id].md.delta).Keys;
          var cursor := t.ck[id].parent;
          while missing != {} && cursor.Some?
            invariant needed + Ancestors(t, cursor, missing) == before + NeededBy(t, id)
            decreases Height(cursor)
          {
            if cursor.value !in t.ck { break; }
            var ancestor := t.ck[cursor.value];
            needed := needed + {cursor.value};
            missing := missing - Held(t, ancestor, missing).Keys;
            cursor := ancestor.parent;
          }
        }
        assert needed == before + NeededBy(t, id);
        OneMoreSurvivor(t, survivors, i);
      }
      assert survivors[..|survivors|] == survivors;
    }

    static lemma OneMoreSurvivor(t: ThreadRows, survivors: seq<Id>, i: nat)
      requires ParentsOlder(t) && i < |survivors|
      ensures DeltaAncestors(t, Elements(survivors[..i + 1]))
                == DeltaAncestors(t, Elements(survivors[..i])) + NeededBy(t, survivors[i])
    {
      assert survivors[..i + 1] == survivors[..i] + [survivors[i]];
      assert Elements(survivors[..i + 1]) == Elements(survivors[..i]) + {survivors[i]};
    }

    /** `_referenced_blobs`. */
    method FindReferencedBlobs(p: Place, ids: set<Id>) returns (keep: set<BlobKey>)
      ensures keep == Referenced(Rows(p), ids)
    {
      var t := Rows(p);
      keep := {};
      var todo := ids;
      while todo != {}
        invariant todo <= ids
        invariant keep == Referenced(t, ids - todo)
        decreases todo
      {
        var id :| id in todo;
        todo := todo - {id};
        if id in t.ck {
          var versions := t.ck[id].cp.versions;
          keep := keep + set ch | ch in versions :: (ch, versions[ch]);
        }
        assert ids - todo == (ids - todo - {id}) + {id};
      }
      assert ids - todo == ids;
    }

    /** `_drop_checkpoints`. */
    method DropCheckpoints(p: Place, doomed: set<Id>, kept: set<Id>)
      modifies store, this`maxSeen
      ensures store.places == old(store.places)[p := Drop(old(Rows(p)), doomed, kept, incremental, store.indexesMaxKey)]
      ensures Dropped(old(Rows(p)), Rows(p), doomed, kept, incremental, store.indexesMaxKey)
      ensures maxSeen == old(maxSeen) || maxSeen == old(maxSeen) - {p}
    {
      var t := Rows(p);
      if incremental {
        var keep := FindReferencedBlobs(p, kept);
        t := t.(bl := map k | k in t.bl && k in keep :: t.bl[k]);
      }
      t := t.(wr := t.wr - doomed);
      t := t.(ck := t.ck - doomed);
      if !store.indexesMaxKey && t.latest.Some? && t.latest.value in doomed {
        t := t.(latest := if kept != {} then Some(MaxId(kept)) else None);
        maxSeen := maxSeen - {p};
      }
      DropIsDropped(Rows(p), doomed, kept, incremental, store.indexesMaxKey);
      store.places := store.places[p := t];
    }

    /** `_trim`: cut the thread back to its newest `keep` checkpoints and what they need. */
    method TrimThread(p: Place, keep: Keep) returns (count: nat)
      requires ParentsOlder(Rows(p))
      modifies store, this`maxSeen
      ensures store.places == old(store.places)[p := Trim(old(Rows(p)), keep, incremental, store.indexesMaxKey)]
              || (store.places == old(store.places)
                  && Trim(old(Rows(p)), keep, incremental, store.indexesMaxKey) == old(Rows(p)))
      ensures Rows(p) == Trim(old(Rows(p)), keep, incremental, store.indexesMaxKey)
      ensures count == |TrimKeeps(old(Rows(p)), keep)|
      ensures Trimmed(old(Rows(p)), Rows(p), keep, incremental, store.indexesMaxKey)
      ensures count == |Surviving(old(Rows(p)), keep)|
      ensures maxSeen == old(maxSeen) || maxSeen == old(maxSeen) - {p}
    {
      var t := Rows(p);
      var survivors := Tail(SortedIds(t.ck.Keys), keep);
      NewestIsSortedTail(t.ck.Keys, keep);
      var ancestors := FindDeltaAncestors(p, survivors);
      var kept := Elements(survivors) + ancestors;
      assert kept == TrimKeeps(t, keep);
      SurvivingIs(t, keep);
      TrimIsTrimmed(t, keep, incremental, store.indexesMaxKey);
      var doomed := t.ck.Keys - kept;
      if doomed != {} {
        DropCheckpoints(p, doomed, kept);
      }
      count := |kept|;
    }

    /** How far above `floor` a thread may grow before it is trimmed. */
    static function Slack(floor: nat): nat {
      if floor / 4 > PRUNE_SLACK then floor / 4 else PRUNE_SLACK
    }

    /** How many checkpoints a thread may hold before it is trimmed: the limit, or what the
        last trim kept if that was more, and the slack. */
    static function Threshold(floors: map<Place, nat>, p: Place, n: nat): nat {
      var floor := if p in floors && floors[p] > n then floors[p] else n;
      floor + Slack(floor)
    }

    static function FloorOf(floors: map<Place, nat>, p: Place): Option<nat> {
      if p in floors then Some(floors[p]) else None
    }

    static lemma ThresholdIs(size: nat, floors: map<Place, nat>, p: Place, n: nat)
      ensures size > Threshold(floors, p, n) <==> GrownTooFar(size, n, FloorOf(floors, p))
    {
    }

    /** What a trim leaves in the floors: its own count, and of the others what fits. */
    static ghost predicate FloorKept(before: map<Place, nat>, after: map<Place, nat>, p: Place, count: nat) {
      && p in after && after[p] == count
      && forall q :: q in after && q != p ==> q in before && after[q] == before[q]
    }

    /** `_prune_thread`: exactly when the thread holds more than its threshold it is trimmed,
        and how many were kept is remembered. */
    method PruneThread(p: Place)
      requires ParentsOlder(Rows(p)) && limit.Some?
      modifies store, this
      ensures var over := |old(Rows(p)).ck| > Threshold(old(pruneFloor), p, limit.value);
              && Rows(p) == (if over then Trim(old(Rows(p)), limit.value, incremental, store.indexesMaxKey) else old(Rows(p)))
              && (if over then FloorKept(old(pruneFloor), pruneFloor, p, |TrimKeeps(old(Rows(p)), limit.value)|)
                  else pruneFloor == old(pruneFloor))
      ensures var over := GrownTooFar(|old(Rows(p)).ck|, limit.value, FloorOf(old(pruneFloor), p));
              if over then Trimmed(old(Rows(p)), Rows(p), limit.value, incremental, store.indexesMaxKey)
              else Rows(p) == old(Rows(p))
      ensures forall q :: q != p ==> Rows(q) == old(Rows(q))
      ensures maxSeen == old(maxSeen) || maxSeen == old(maxSeen) - {p}
    {
      var n := limit.value;
      ThresholdIs(|Rows(p).ck|, pruneFloor, p, n);
      assert |Rows(p).ck.Keys| == |Rows(p).ck|;
      if |Rows(p).ck.Keys| <= Threshold(pruneFloor, p, n) {
        return;
      }
      var count := TrimThread(p, n);
      if |pruneFloor| >= MAX_HINTS {
        pruneFloor := map[];
      }
      pruneFloor := pruneFloor[p := count];
    }

    /** What a prune leaves: at most the threshold; and where no delta channel is named, at
        most the limit once it trims, so never more than the limit and eight, or a quarter,
        after a first prune. */
    static lemma PrunedIsSmall(t: ThreadRows, floors: map<Place, nat>, p: Place, n: nat, incremental: bool, indexed: bool)
      requires ParentsOlder(t)
      ensures var pruned := if |t.ck| > Threshold(floors, p, n) then Trim(t, n, incremental, indexed) else t;
              && |pruned.ck| <= (if |TrimKeeps(t, n)| > Threshold(floors, p, n) then |TrimKeeps(t, n)| else Threshold(floors, p, n))
              && ((forall id :: id in t.ck ==> t.ck[id].md.delta == {}) ==>
                    && (pruned != t ==> |pruned.ck| <= n)
                    && (p !in floors ==> |pruned.ck| <= n + if n / 4 > 8 then n / 4 else 8))
    {
      TrimLeavesFew(t, n, incremental, indexed);
      TrimLeaves(t, n, incremental, indexed);
      assert |Trim(t, n, incremental, indexed).ck| == |Trim(t, n, incremental, indexed).ck.Keys|;
    }

    /** A thread without delta channels is left with at most `keep` checkpoints. */
    static lemma TrimLeavesFew(t: ThreadRows, keep: nat, incremental: bool, indexed: bool)
      requires ParentsOlder(t)
      ensures (forall id :: id in t.ck ==> t.ck[id].md.delta == {}) ==> |Trim(t, keep, incremental, indexed).ck| <= keep
    {
      TrimLeaves(t, keep, incremental, indexed);
      if forall id :: id in t.ck ==> t.ck[id].md.delta == {} {
        assert DeltaAncestors(t, Newest(t.ck.Keys, keep)) == {};
        NewestAreFew(t.ck.Keys, keep);
        assert Trim(t, keep, incremental, indexed).ck.Keys == Newest(t.ck.Keys, keep);
      }
    }

    static lemma {:induction false} NewestAreFew(s: set<Id>, n: nat)
      ensures |Newest(s, n)| <= n
    {
      if s != {} && n != 0 {
        NewestAreFew(s - {MaxId(s)}, n - 1);
      }
    }

    static lemma TrimLeaves(t: ThreadRows, keep: nat, incremental: bool, indexed: bool)
      requires ParentsOlder(t)
      ensures Trim(t, keep, incremental, indexed).ck.Keys == TrimKeeps(t, keep)
    {
      TrimKeepsStored(t, keep);
    }

    /** The rows of a put: the blobs not stored yet, the checkpoint and, unless a newer
        one has been published, the pointer. */
    method StoreCheckpoint(p: Place, id: Id, cp: Checkpoint, md: Metadata, parent: Option<Id>,
                           newVersions: map<Channel, Version>)
      modifies store, this`maxSeen
      ensures var publish := !store.indexesMaxKey && Publishes(old(maxSeen), p, id);
              store.places == old(store.places)[p :=
                Put(old(Rows(p)), id, cp, md, parent, newVersions, incremental, publish)]
      ensures PutDone(old(Rows(p)), Rows(p), id, cp, md, parent, newVersions, incremental)
      ensures HintsMay(old(maxSeen), maxSeen, p, Some(id))
    {
      var t := Rows(p);
      var cpToStore := cp;
      var bl := t.bl;
      if incremental {
        cpToStore := cp.(values := None);
        var blobs := NewBlobs(cp, newVersions);
        bl := t.bl + map k | k in blobs && k !in t.bl :: blobs[k];
        assert bl == blobs + t.bl;
      }
      var latest := t.latest;
      if !store.indexesMaxKey && (p !in maxSeen || id > maxSeen[p]) {
        RememberSeen(p, id);
        latest := Some(id);
      }
      PutIsDone(t, id, cp, md, parent, newVersions, incremental, !store.indexesMaxKey && Publishes(old(maxSeen), p, id));
      store.places := store.places[p := ThreadRows(t.ck[id := Record(cpToStore, md, parent)], t.wr, bl, latest)];
    }

    /** `put`: store the checkpoint with its pointer, then trim when the thread has
        grown too far above the limit. `stored` is what the put makes of the thread before
        that. */
    method PutCheckpoint(p: Place, id: Id, cp: Checkpoint, md: Metadata, parent: Option<Id>,
                         newVersions: map<Channel, Version>)
        returns (ghost stored: ThreadRows)
      requires ParentsOlder(Rows(p)) && (parent.Some? ==> parent.value < id)
      modifies store, this
      ensures stored == Put(old(Rows(p)), id, cp, md, parent, newVersions, incremental,
                            !store.indexesMaxKey && Publishes(old(maxSeen), p, id))
      ensures ParentsOlder(stored) && PutDone(old(Rows(p)), stored, id, cp, md, parent, newVersions, incremental)
      ensures var over := limit.Some? && GrownTooFar(|stored.ck|, limit.value, FloorOf(old(pruneFloor), p));
              && Rows(p) == (if over then Trim(stored, limit.value, incremental, store.indexesMaxKey) else stored)
              && (over ==> Trimmed(stored, Rows(p), limit.value, incremental, store.indexesMaxKey))
      ensures forall q :: q != p ==> Rows(q) == old(Rows(q))
      ensures HintsMay(old(maxSeen), maxSeen, p, Some(id))
    {
      StoreCheckpoint(p, id, cp, md, parent, newVersions);
      stored := Rows(p);
      if limit.Some? {
        ThresholdIs(|stored.ck|, pruneFloor, p, limit.value);
        PruneThread(p);
      }
    }

    /** `put_writes`: one batch, positional writes that are already stored left alone. */
    method PutPendingWrites(p: Place, id: Id, task: string, path: string, writes: seq<(Channel, Value)>,
                            special: map<Channel, int>)
      modifies store
      ensures store.places == old(store.places)[p := PutWrites(old(Rows(p)), id, task, path, writes, special)]
      ensures OnlyWritesOf(old(Rows(p)), Rows(p), id)
    {
      var t := Rows(p);
      var batch := NewWrites(WritesOf(t, id).Keys, task, path, writes, special);
      OnlyItsWrites(t, id, task, path, writes, special);
      store.places := store.places[p := t.(wr := t.wr[id := Overwrite(WritesOf(t, id), batch)])];
    }

    /** The rows of the call that are not stored yet. */
    static method NewWrites(existing: set<Slot>, task: string, path: string, writes: seq<(Channel, Value)>,
                            special: map<Channel, int>)
        returns (batch: seq<(Slot, Write)>)
      ensures batch == WriteBatch(existing, task, path, writes, special, 0)
    {
      batch := [];
      for idx := 0 to |writes|
        invariant batch + WriteBatch(existing, task, path, writes, special, idx)
                    == WriteBatch(existing, task, path, writes, special, 0)
      {
        var (channel, value) := writes[idx];
        var widx := WriteIndex(special, channel, idx);
        var slot := Slot(task, widx);
        if !(widx >= 0 && slot in existing) {
          var row := (slot, Write(task, channel, value, path));
          assert batch + ([row] + WriteBatch(existing, task, path, writes, special, idx + 1))
              == batch + [row] + WriteBatch(existing, task, path, writes, special, idx + 1);
          batch := batch + [row];
        }
      }
    }

    /** `_resolve`: the named checkpoint, or the latest one. */
    method Resolve(p: Place, wanted: Option<Id>) returns (found: Option<Id>)
      modifies store
      ensures wanted.Some? ==> found == if wanted.value in Rows(p).ck then wanted else None
      ensures wanted.None? ==>
                found == if store.indexesMaxKey then IndexedLatest(old(Rows(p))) else PointedLatest(old(Rows(p)))
      ensures Rows(p) == if wanted.Some? || store.indexesMaxKey then old(Rows(p)) else AfterResolve(old(Rows(p)))
      ensures Rows(p).(latest := old(Rows(p)).latest) == old(Rows(p))
      ensures found.Some? ==> found.value in Rows(p).ck
      ensures wanted.None? && !store.indexesMaxKey && found.Some? ==> Rows(p).latest == found
      ensures forall q :: q != p ==> Rows(q) == old(Rows(q))
    {
      var t := Rows(p);
      if wanted.Some? {
        found := if wanted.value in t.ck then wanted else None;
      } else if store.indexesMaxKey {
        found := IndexedLatest(t);
      } else if t.latest.Some? && t.latest.value in t.ck {
        found := t.latest;
      } else if t.ck == map[] {
        found := None;
      } else {
        found := Some(MaxId(t.ck.Keys));
        store.places := store.places[p := t.(latest := found)];
      }
    }

    /** `get_delta_channel_history`, from a resolved checkpoint's parent: one walk for
        all the channels gives each channel what a walk of its own would give. */
    method DeltaChannelHistory(p: Place, start: Option<Id>, channels: set<Channel>)
        returns (result: map<Channel, History>)
      requires ParentsOlder(Rows(p))
      ensures result.Keys == channels
      ensures forall ch :: ch in channels ==> result[ch] == Walk(Rows(p), start, ch)
    {
      var t := Rows(p);
      var collected: map<Channel, seq<Write>> := map ch | ch in channels :: [];
      var seeds: map<Channel, Value> := map[];
      var remaining := channels;
      var cursor := start;
      WalkStarts(t, start, channels);
      while cursor.Some? && remaining != {}
        invariant WalkSoFar(t, start, cursor, channels, remaining, collected, seeds)
        decreases Height(cursor)
      {
        if cursor.value !in t.ck { break; }
        var saved := t.ck[cursor.value];
        var collected' := CollectFrom(t, cursor.value, remaining, collected);
        var present := Held(t, saved, remaining);
        WalkAllSteps(t, start, cursor.value, channels, remaining, collected, seeds, collected');
        collected := collected';
        seeds := seeds + present;
        remaining := remaining - present.Keys;
        cursor := saved.parent;
      }
      WalkEnds(t, start, cursor, channels, remaining, collected, seeds);
      result := map ch | ch in channels ::
        History(Reverse(collected[ch]), if ch in seeds then Some(seeds[ch]) else None);
    }

    // --------------------------------------------------------- thread management

    /** The same call on the native async path. */
    method PutPendingWritesAsync(p: Place, id: Id, task: string, path: string, writes: seq<(Channel, Value)>,
                                 special: map<Channel, int>)
      modifies store
      ensures store.places == old(store.places)[p := PutWrites(old(Rows(p)), id, task, path, writes, special)]
      ensures OnlyWritesOf(old(Rows(p)), Rows(p), id)
    {
      var t := Rows(p);
      var existing := WritesOf(t, id);
      var batch := AsyncBatch(existing.Keys, task, path, writes, special);
      AsyncWritesTheSame(existing.Keys, task, path, writes, special);
      OnlyItsWrites(t, id, task, path, writes, special);
      store.places := store.places[p := t.(wr := t.wr[id := Overwrite(existing, batch)])];
    }

    /** `prune(..., strategy="keep_latest")`. */
    method PruneToLatest(threads: set<string>)
      requires forall p :: ParentsOlder(Rows(p))
      modifies store, this`maxSeen
      ensures forall p :: Rows(p) == if p.thread in threads
                                     then Trim(old(Rows(p)), 1, incremental, store.indexesMaxKey) else old(Rows(p))
      ensures forall p: Place :: p.thread in threads ==> Trimmed(old(Rows(p)), Rows(p), 1, incremental, store.indexesMaxKey)
      ensures forall p :: p in maxSeen ==> p in old(maxSeen) && maxSeen[p] == old(maxSeen)[p]
    {
      ghost var before := store.places;
      assert forall p :: ParentsOlder(RowsAt(before, p)) by {
        forall p ensures ParentsOlder(RowsAt(before, p)) { assert ParentsOlder(Rows(p)); }
      }
      var todo := set p | p in store.places && p.thread in threads;
      ghost var all := todo;
      while todo != {}
        invariant todo <= all
        invariant forall p :: Rows(p) == if p in all - todo
                                         then Trim(RowsAt(before, p), 1, incremental, store.indexesMaxKey)
                                         else RowsAt(before, p)
        invariant forall p :: p in maxSeen ==> p in old(maxSeen) && maxSeen[p] == old(maxSeen)[p]
        decreases todo
      {
        var p :| p in todo;
        todo := todo - {p};
        assert ParentsOlder(RowsAt(before, p));
        var count := TrimThread(p, 1);
      }
      AllTrimmed(before, store.places, threads, incremental, store.indexesMaxKey);
    }

    static lemma AllTrimmed(before: Places, now: Places, threads: set<string>, incremental: bool, indexed: bool)
      requires forall p :: ParentsOlder(RowsAt(before, p))
      requires forall p: Place :: p.thread in threads ==> RowsAt(now, p) == Trim(RowsAt(before, p), 1, incremental, indexed)
      ensures forall p: Place :: p.thread in threads ==>
                Trimmed(RowsAt(before, p), RowsAt(now, p), 1, incremental, indexed)
    {
      forall p: Place | p.thread in threads ensures Trimmed(RowsAt(before, p), RowsAt(now, p), 1, incremental, indexed) {
        assert ParentsOlder(RowsAt(before, p));
        TrimIsTrimmed(RowsAt(before, p), 1, incremental, indexed);
      }
    }

    /** One kind of a thread's rows gone. */
    static function Without(t: ThreadRows, kind: RowKind): ThreadRows {
      match kind
      case CheckpointRow => t.(ck := map[])
      case WriteRow => t.(wr := map[])
      case BlobRow => t.(bl := map[])
      case PointerRow => t.(latest := None)
    }

    /** The rows of one kind, deleted in every namespace of the thread. */
    method DeleteKind(thread: string, kind: RowKind)
      modifies store
      ensures forall p :: Rows(p) == if p.thread == thread then Without(old(Rows(p)), kind) else old(Rows(p))
    {
      ghost var before := store.places;
      var todo := set p | p in store.places && p.thread == thread;
      ghost var done: set<Place> := {};
      while todo != {}
        invariant todo + done == set p | p in before && p.thread == thread
        invariant todo !! done
        invariant forall p :: Rows(p) == if p in done then Without(RowsAt(before, p), kind) else RowsAt(before, p)
        decreases todo
      {
        var p :| p in todo;
        store.places := store.places[p := Without(Rows(p), kind)];
        todo, done := todo - {p}, done + {p};
      }
    }

    /** What one of the saver's dictionaries remembers about a thread, forgotten. */
    static method ForgetThread<V>(hints: map<Place, V>, thread: string) returns (r: map<Place, V>)
      ensures r == map p | p in hints && p.thread != thread :: hints[p]
    {
      r := hints;
      var todo := set p | p in hints && p.thread == thread;
      while todo != {}
        invariant todo <= set p | p in hints && p.thread == thread
        invariant r == map p | p in hints && (p.thread != thread || p in todo) :: hints[p]
        decreases todo
      {
        var p :| p in todo;
        r, todo := r - {p}, todo - {p};
      }
    }

    /** `delete_thread`, for a thread that the stored names keep apart from the others (see
        `StoredNames`): rows of all kinds, pointers unless the store needs none, and what
        the saver remembers. */
    method DeleteThread(thread: string)
      modifies store, this
      ensures forall p :: Rows(p) == if p.thread != thread then old(Rows(p))
                                     else if store.indexesMaxKey then EMPTY.(latest := old(Rows(p)).latest)
                                     else EMPTY
      ensures maxSeen == map p | p in old(maxSeen) && p.thread != thread :: old(maxSeen)[p]
      ensures pruneFloor == map p | p in old(pruneFloor) && p.thread != thread :: old(pruneFloor)[p]
    {
      DeleteKind(thread, CheckpointRow);
      DeleteKind(thread, WriteRow);
      DeleteKind(thread, BlobRow);
      if !store.indexesMaxKey {
        DeleteKind(thread, PointerRow);
      }
      maxSeen := ForgetThread(maxSeen, thread);
      pruneFloor := ForgetThread(pruneFloor, thread);
    }

    static lemma RunsAreGone(t: ThreadRows, wanted: set<string>, incremental: bool, indexed: bool)
      ensures RunsDropped(t, DeleteRuns(t, wanted, incremental, indexed), wanted, incremental, indexed)
      ensures forall id :: RunsGoneAt(t, DeleteRuns(t, wanted, incremental, indexed), wanted, id)
    {
      DeleteRunsDrops(t, wanted, incremental, indexed);
      forall id ensures RunsGoneAt(t, DeleteRuns(t, wanted, incremental, indexed), wanted, id) {
        RunsGone(t, DeleteRuns(t, wanted, incremental, indexed), wanted, incremental, indexed, id);
      }
    }

    /** `delete_for_runs`, for one thread. */
    method DeleteRunsAt(p: Place, wanted: set<string>)
      modifies store, this`maxSeen
      ensures Becomes(old(store.places), store.places, p, DeleteRuns(old(Rows(p)), wanted, incremental, store.indexesMaxKey))
      ensures RunsDropped(old(Rows(p)), Rows(p), wanted, incremental, store.indexesMaxKey)
      ensures forall id :: RunsGoneAt(old(Rows(p)), Rows(p), wanted, id)
      ensures maxSeen == old(maxSeen) || maxSeen == old(maxSeen) - {p}
    {
      var t := Rows(p);
      var doomed := RunCheckpoints(t, wanted);
      if doomed != {} {
        DropCheckpoints(p, doomed, t.ck.Keys - doomed);
      }
      RunsAreGone(t, wanted, incremental, store.indexesMaxKey);
    }

    /** `delete_for_runs`. */
    method DeleteForRuns(wanted: set<string>)
      modifies store, this`maxSeen
      ensures forall p :: Rows(p) == DeleteRuns(old(Rows(p)), wanted, incremental, store.indexesMaxKey)
      ensures forall p :: RunsDropped(old(Rows(p)), Rows(p), wanted, incremental, store.indexesMaxKey)
      ensures forall p, id :: RunsGoneAt(old(Rows(p)), Rows(p), wanted, id)
      ensures forall p :: p in maxSeen ==> p in old(maxSeen) && maxSeen[p] == old(maxSeen)[p]
    {
      ghost var before := store.places;
      var todo := store.places.Keys;
      ghost var all := todo;
      while todo != {}
        invariant todo <= all
        invariant forall p :: Rows(p) == if p in all - todo
                                         then DeleteRuns(RowsAt(before, p), wanted, incremental, store.indexesMaxKey)
                                         else RowsAt(before, p)
        invariant forall p :: p in maxSeen ==> p in old(maxSeen) && maxSeen[p] == old(maxSeen)[p]
        decreases todo
      {
        var p :| p in todo;
        todo := todo - {p};
        DeleteRunsAt(p, wanted);
      }
      forall p
        ensures RunsDropped(RowsAt(before, p), Rows(p), wanted, incremental, store.indexesMaxKey)
        ensures forall id :: RunsGoneAt(RowsAt(before, p), Rows(p), wanted, id)
      {
        RunsAreGone(RowsAt(before, p), wanted, incremental, store.indexesMaxKey);
        assert Rows(p) == DeleteRuns(RowsAt(before, p), wanted, incremental, store.indexesMaxKey);
      }
    }

    /** `_set_many`, row by row: rows with the same key are overwritten. */
    static method SetRows<K, V>(rows: map<K, V>, into: map<K, V>) returns (r: map<K, V>)
      ensures r == into + rows
    {
      r := into;
      var todo := rows.Keys;
      while todo != {}
        invariant todo <= rows.Keys
        invariant r == into + (rows - todo)
        decreases todo
      {
        var k :| k in todo;
        todo := todo - {k};
        r := r[k := rows[k]];
      }
      assert rows - todo == rows;
    }

    /** The checkpoint rows of a copy: the source's, naming the target. */
    static method RetargetAll(ck: map<Id, Record>, source: string, target: string) returns (rows: map<Id, Record>)
      ensures rows == map id | id in ck :: Retarget(ck[id], source, target)
    {
      rows := map[];
      var todo := ck.Keys;
      while todo != {}
        invariant todo <= ck.Keys
        invariant rows == map id | id in ck.Keys - todo :: Retarget(ck[id], source, target)
        decreases todo
      {
        var id :| id in todo;
        todo := todo - {id};
        rows := rows[id := Retarget(ck[id], source, target)];
      }
    }

    /** The pending writes, checkpoint by checkpoint. */
    static method CopyWrites(src: map<Id, map<Slot, Write>>, dst: map<Id, map<Slot, Write>>)
        returns (wr: map<Id, map<Slot, Write>>)
      ensures wr == LaidOver(src, dst, src.Keys)
    {
      wr := dst;
      var todo := src.Keys;
      NothingLaid(src, dst);
      assert src.Keys - todo == {};
      while todo != {}
        invariant todo <= src.Keys
        invariant wr == LaidOver(src, dst, src.Keys - todo)
        decreases todo
      {
        var id :| id in todo;
        var rows := SetRows(src[id], if id in dst then dst[id] else map[]);
        OneMoreLaid(src, dst, src.Keys - todo, id, rows);
        assert src.Keys - todo + {id} == src.Keys - (todo - {id});
        wr, todo := wr[id := rows], todo - {id};
      }
      assert src.Keys - todo == src.Keys;
    }

    /** The writes of `dst`, those of `src` for the checkpoints in `done` laid over them. */
    static ghost function LaidOver(src: map<Id, map<Slot, Write>>, dst: map<Id, map<Slot, Write>>, done: set<Id>):
        map<Id, map<Slot, Write>>
      requires done <= src.Keys
    {
      map id | id in dst.Keys + done ::
        (if id in dst then dst[id] else map[]) + (if id in done then src[id] else map[])
    }

    static lemma NothingLaid(src: map<Id, map<Slot, Write>>, dst: map<Id, map<Slot, Write>>)
      ensures LaidOver(src, dst, {}) == dst
    {
      forall id | id in dst ensures LaidOver(src, dst, {})[id] == dst[id] {
        assert dst[id] + map[] == dst[id];
      }
    }

    static lemma OneMoreLaid(src: map<Id, map<Slot, Write>>, dst: map<Id, map<Slot, Write>>, done: set<Id>, id: Id,
                             rows: map<Slot, Write>)
      requires done <= src.Keys && id in src && id !in done
      requires rows == (if id in dst then dst[id] else map[]) + src[id]
      ensures LaidOver(src, dst, done)[id := rows] == LaidOver(src, dst, done + {id})
    {
    }

    static lemma CopiedRowByRow(src: ThreadRows, dst: ThreadRows, source: string, target: string, indexed: bool,
                                after: ThreadRows)
      requires after.ck == dst.ck + map id | id in src.ck :: Retarget(src.ck[id], source, target)
      requires after.wr == LaidOver(src.wr, dst.wr, src.wr.Keys)
      requires after.bl == dst.bl + src.bl
      requires after.latest == if indexed || after.ck == map[] then dst.latest else Some(MaxId(after.ck.Keys))
      ensures after == CopyInto(src, dst, source, target, indexed)
    {
      assert after.wr == CopyInto(src, dst, source, target, indexed).wr;
    }

    /** The rows of one checkpoint namespace, copied kind by kind. */
    static method CopyRows(src: ThreadRows, dst: ThreadRows, source: string, target: string, indexed: bool)
        returns (copied: ThreadRows)
      ensures copied == CopyInto(src, dst, source, target, indexed)
    {
      var rows := RetargetAll(src.ck, source, target);
      var ck := SetRows(rows, dst.ck);
      var wr := CopyWrites(src.wr, dst.wr);
      var bl := SetRows(src.bl, dst.bl);
      var latest := if !indexed && ck != map[] then Some(MaxId(ck.Keys)) else dst.latest;
      copied := ThreadRows(ck, wr, bl, latest);
      CopiedRowByRow(src, dst, source, target, indexed, copied);
    }

    /** `_bounded_set`, on the hints. */
    method RememberSeen(p: Place, id: Id)
      modifies this`maxSeen
      ensures HintsMay(old(maxSeen), maxSeen, p, Some(id)) && p in maxSeen && maxSeen[p] == id
    {
      if |maxSeen| >= MAX_HINTS {
        maxSeen := map[];
      }
      maxSeen := maxSeen[p := id];
    }

    /** `copy_thread`, for one checkpoint namespace. */
    method CopyNamespace(source: Place, target: Place)
      modifies store, this`maxSeen
      ensures store.places == old(store.places)[target :=
                CopyInto(old(Rows(source)), old(Rows(target)), source.thread, target.thread, store.indexesMaxKey)]
      ensures HintsMay(old(maxSeen), maxSeen, target, if store.indexesMaxKey then None else IndexedLatest(Rows(target)))
    {
      var copied := CopyRows(Rows(source), Rows(target), source.thread, target.thread, store.indexesMaxKey);
      if !store.indexesMaxKey && copied.ck != map[] {
        RememberSeen(target, MaxId(copied.ck.Keys));
      }
      store.places := store.places[target := copied];
    }

    /** What a copy makes of one namespace of the target. */
    static function CopyOf(before: Places, ns: string, source: string, target: string, indexed: bool): ThreadRows {
      CopyInto(RowsAt(before, Place(source, ns)), RowsAt(before, Place(target, ns)), source, target, indexed)
    }

    /** The checkpoint namespaces either thread has rows in. */
    static function NamespacesOf(places: Places, source: string, target: string): set<string> {
      set p | p in places && (p.thread == source || p.thread == target) :: p.ns
    }

    static ghost function CopyGoal(before: Places, source: string, target: string, indexed: bool): map<string, ThreadRows> {
      map ns | ns in NamespacesOf(before, source, target) :: CopyOf(before, ns, source, target, indexed)
    }

    method CopyNamespaces(source: string, target: string)
      requires source != target
      modifies store, this`maxSeen
      ensures CopiedSoFar(old(store.places), store.places, target, NamespacesOf(old(store.places), source, target),
                          CopyGoal(old(store.places), source, target, store.indexesMaxKey))
      ensures HintsCopied(old(maxSeen), maxSeen, target, CopyGoal(old(store.places), source, target, store.indexesMaxKey))
    {
      ghost var before := store.places;
      var todo := NamespacesOf(store.places, source, target);
      ghost var done: set<string> := {};
      ghost var goal := CopyGoal(before, source, target, store.indexesMaxKey);
      while todo != {}
        invariant todo !! done && todo + done == goal.Keys
        invariant CopiedSoFar(before, store.places, target, done, goal)
        invariant HintsCopied(old(maxSeen), maxSeen, target, goal)
        decreases todo
      {
        var ns :| ns in todo;
        ghost var now, hints := store.places, maxSeen;
        assert ns in goal && ns !in done;
        OneMoreNamespace(before, now, source, target, done, goal, ns, store.indexesMaxKey);
        CopyNamespace(Place(source, ns), Place(target, ns));
        OneMoreHint(old(maxSeen), hints, maxSeen, target, goal, ns);
        todo, done := todo - {ns}, done + {ns};
      }
      assert done == goal.Keys;
    }

    /** Hints gained by a copy name the newest checkpoints of the target. */
    static ghost predicate HintsCopied(before: map<Place, Id>, after: map<Place, Id>, target: string,
                                       goal: map<string, ThreadRows>)
    {
      forall q :: q in after ==>
        || (q in before && after[q] == before[q])
        || (q.thread == target && q.ns in goal && IndexedLatest(goal[q.ns]) == Some(after[q]))
    }

    static lemma OneMoreHint(before: map<Place, Id>, hints: map<Place, Id>, after: map<Place, Id>, target: string,
                             goal: map<string, ThreadRows>, ns: string)
      requires HintsCopied(before, hints, target, goal) && ns in goal
      requires HintsMay(hints, after, Place(target, ns), IndexedLatest(goal[ns]))
            || HintsMay(hints, after, Place(target, ns), None)
      ensures HintsCopied(before, after, target, goal)
    {
    }

    /** `copy_thread`: every namespace of the source laid over the target's, and the
        target's pointers, and the hints for them, moved to its newest checkpoints. */
    method CopyThread(source: string, target: string)
      modifies store, this`maxSeen
      ensures forall p: Place :: p.thread != target || source == target ==> Rows(p) == old(Rows(p))
      ensures source != target ==>
                forall ns :: Rows(Place(target, ns)) == CopyOf(old(store.places), ns, source, target, store.indexesMaxKey)
      ensures source != target ==>
                forall ns :: CopiedOver(old(Rows(Place(source, ns))), old(Rows(Place(target, ns))), Rows(Place(target, ns)),
                                              source, target)
      ensures forall q :: q in maxSeen ==>
                || (q in old(maxSeen) && maxSeen[q] == old(maxSeen)[q])
                || (q.thread == target && IndexedLatest(Rows(q)) == Some(maxSeen[q]))
    {
      if source != target {
        ghost var goal := CopyGoal(store.places, source, target, store.indexesMaxKey);
        CopyNamespaces(source, target);
        AllCopied(old(store.places), store.places, source, target, store.indexesMaxKey);
        ghost var before := old(store.places);
        forall ns
          ensures CopiedOver(RowsAt(before, Place(source, ns)), RowsAt(before, Place(target, ns)),
                                   Rows(Place(target, ns)), source, target)
        {
          CopyIsCopiedOver(RowsAt(before, Place(source, ns)), RowsAt(before, Place(target, ns)), source, target,
                         store.indexesMaxKey);
        }
        forall q | q in maxSeen && !(q in old(maxSeen) && maxSeen[q] == old(maxSeen)[q])
          ensures q.thread == target && IndexedLatest(Rows(q)) == Some(maxSeen[q])
        {
          assert Rows(Place(target, q.ns)) == goal[q.ns];
        }
      }
    }

    static ghost predicate CopiedSoFar(before: Places, now: Places, target: string, done: set<string>,
                                       goal: map<string, ThreadRows>)
    {
      && done <= goal.Keys
      && (forall p: Place :: p.thread != target || p.ns !in done ==> RowsAt(now, p) == RowsAt(before, p))
      && (forall ns :: ns in done ==> RowsAt(now, Place(target, ns)) == goal[ns])
    }

    static lemma OneMoreNamespace(before: Places, now: Places, source: string, target: string, done: set<string>,
                                  goal: map<string, ThreadRows>, ns: string, indexed: bool)
      requires CopiedSoFar(before, now, target, done, goal) && ns in goal && ns !in done && source != target
      requires goal[ns] == CopyOf(before, ns, source, target, indexed)
      ensures CopyInto(RowsAt(now, Place(source, ns)), RowsAt(now, Place(target, ns)), source, target, indexed) == goal[ns]
      ensures CopiedSoFar(before, now[Place(target, ns) := goal[ns]], target, done + {ns}, goal)
    {
      assert RowsAt(now, Place(source, ns)) == RowsAt(before, Place(source, ns));
      assert RowsAt(now, Place(target, ns)) == RowsAt(before, Place(target, ns));
      OnePlaceMore(before, now, target, done, goal, ns);
    }

    static lemma OnePlaceMore(before: Places, now: Places, target: string, done: set<string>,
                              goal: map<string, ThreadRows>, ns: string)
      requires CopiedSoFar(before, now, target, done, goal) && ns in goal
      ensures CopiedSoFar(before, now[Place(target, ns) := goal[ns]], target, done + {ns}, goal)
    {
    }

    static lemma AllCopied(before: Places, now: Places, source: string, target: string, indexed: bool)
      requires CopiedSoFar(before, now, target, NamespacesOf(before, source, target),
                           CopyGoal(before, source, target, indexed))
      ensures forall p: Place :: p.thread != target ==> RowsAt(now, p) == RowsAt(before, p)
      ensures forall ns :: RowsAt(now, Place(target, ns)) == CopyOf(before, ns, source, target, indexed)
    {
      var all := NamespacesOf(before, source, target);
      forall ns ensures RowsAt(now, Place(target, ns)) == CopyOf(before, ns, source, target, indexed) {
        if ns in all {
          assert CopyGoal(before, source, target, indexed)[ns] == CopyOf(before, ns, source, target, indexed);
        } else {
          assert Place(target, ns).ns !in all;
          NotInAll(before, ns, source, target);
          NothingCopied(source, target, indexed);
        }
      }
    }

    static lemma NotInAll(before: Places, ns: string, source: string, target: string)
      requires ns !in NamespacesOf(before, source, target)
      ensures RowsAt(before, Place(source, ns)) == EMPTY && RowsAt(before, Place(target, ns)) == EMPTY
    {
      assert Place(source, ns) in before ==> Place(source, ns).ns in NamespacesOf(before, source, target);
      assert Place(target, ns) in before ==> Place(target, ns).ns in NamespacesOf(before, source, target);
    }

    static lemma NothingCopied(source: string, target: string, indexed: bool)
      ensures CopyInto(EMPTY, EMPTY, source, target, indexed) == EMPTY
    {
      assert CopyInto(EMPTY, EMPTY, source, target, indexed).wr == map[];
    }
  }
}
