/** What the operations on a thread's rows do, said row by row and of what is read
    afterwards, apart from the functions of `CheckpointRows`. */
module RowLaws {
  import opened Wrappers
  import opened Ids
  import opened WriteKeys
  import opened CheckpointRows

  // -------------------------------------------------------------- what a put stores

  /** The blob that is found for a channel of the checkpoint after it is put: the one stored
      before, else the one the put brings, if it brings that version. */
  function FoundBlob(t: ThreadRows, cp: Checkpoint, newVersions: map<Channel, Version>, ch: Channel): Option<Blob>
    requires ch in cp.versions
  {
    var v := cp.versions[ch];
    if (ch, v) in t.bl then Some(t.bl[(ch, v)])
    else if ch in newVersions && newVersions[ch] == v then
      Some(if cp.values.Some? && ch in cp.values.value then Present(cp.values.value[ch]) else Empty)
    else None
  }

  /** The blob found for a channel holds the channel's value, and none where it has none. */
  predicate FoundRight(t: ThreadRows, cp: Checkpoint, newVersions: map<Channel, Version>, ch: Channel)
    requires ch in cp.versions && cp.values.Some?
  {
    var found := FoundBlob(t, cp, newVersions, ch);
    if ch in cp.values.value then found == Some(Present(cp.values.value[ch]))
    else found == None || found == Some(Empty)
  }

  /** The versions of the checkpoint mean its values. */
  predicate VersionsMeanValues(t: ThreadRows, cp: Checkpoint, newVersions: map<Channel, Version>) {
    && cp.values.Some? && cp.values.value.Keys <= cp.versions.Keys
    && forall ch :: ch in cp.versions ==> FoundRight(t, cp, newVersions, ch)
  }

  /** The put brings a value under a version that `other` names and that had no blob. */
  predicate FillsGap(t: ThreadRows, cp: Checkpoint, newVersions: map<Channel, Version>, other: Record) {
    other.cp.values.None? && cp.values.Some? &&
    exists ch :: ch in other.cp.versions && BringsBlob(t, cp, newVersions, ch, other.cp.versions[ch])
  }

  predicate BringsBlob(t: ThreadRows, cp: Checkpoint, newVersions: map<Channel, Version>, ch: Channel, v: Version)
    requires cp.values.Some?
  {
    (ch, v) !in t.bl && ch in newVersions && newVersions[ch] == v && ch in cp.values.value
  }

  /** The put checkpoint is read with its metadata, its parent and the pending writes that
      were there; with inline values as it is, and without exactly when its versions mean
      its values. */
  predicate ReadsPut(before: ThreadRows, after: ThreadRows, id: Id, cp: Checkpoint, md: Metadata, parent: Option<Id>,
                     newVersions: map<Channel, Version>, incremental: bool)
  {
    var read := GetTuple(after, id, incremental);
    && read.Some? && read.value.id == id
    && read.value.metadata == md && read.value.parent == parent && read.value.pending == Pending(before, id)
    && read.value.checkpoint.versions == cp.versions && read.value.checkpoint.rest == cp.rest
    && (read.value.checkpoint == cp <==> !incremental || VersionsMeanValues(before, cp, newVersions))
  }

  /** Another checkpoint is there exactly if it was, and is read as before exactly if the
      put fills no gap in it. */
  predicate ReadsOther(before: ThreadRows, after: ThreadRows, cp: Checkpoint, newVersions: map<Channel, Version>,
                       incremental: bool, other: Id)
  {
    && (other in after.ck <==> other in before.ck)
    && (other in before.ck ==>
          (GetTuple(after, other, incremental) == GetTuple(before, other, incremental)
           <==> !(incremental && FillsGap(before, cp, newVersions, before.ck[other]))))
  }

  lemma AttachedAfterPut(t: ThreadRows, cp: Checkpoint, newVersions: map<Channel, Version>, ch: Channel, v: Version)
    ensures var bl := NewBlobs(cp, newVersions) + t.bl;
            && ((ch, v) in bl <==> (ch, v) in t.bl || (ch in newVersions && newVersions[ch] == v))
            && ((ch, v) in bl ==> bl[(ch, v)] == if (ch, v) in t.bl then t.bl[(ch, v)] else BlobOf(cp, ch))
  {
    assert (ch, v) in newVersions.Items <==> ch in newVersions && newVersions[ch] == v;
  }

  lemma PutValuesIff(t: ThreadRows, cp: Checkpoint, newVersions: map<Channel, Version>)
    requires cp.values.Some?
    ensures Attached(NewBlobs(cp, newVersions) + t.bl, cp.versions) == cp.values.value
       <==> VersionsMeanValues(t, cp, newVersions)
  {
    var read := Attached(NewBlobs(cp, newVersions) + t.bl, cp.versions);
    forall ch | ch in cp.versions
      ensures FoundRight(t, cp, newVersions, ch)
         <==> if ch in cp.values.value then ch in read && read[ch] == cp.values.value[ch] else ch !in read
    {
      AttachedAfterPut(t, cp, newVersions, ch, cp.versions[ch]);
    }
    if VersionsMeanValues(t, cp, newVersions) {
      assert read.Keys == cp.values.value.Keys;
      assert read == cp.values.value;
    }
    if read == cp.values.value {
      assert cp.values.value.Keys <= cp.versions.Keys;
    }
  }

  lemma PutIsRead(t: ThreadRows, id: Id, cp: Checkpoint, md: Metadata, parent: Option<Id>,
                  newVersions: map<Channel, Version>, incremental: bool, publish: bool)
    ensures ReadsPut(t, Put(t, id, cp, md, parent, newVersions, incremental, publish), id, cp, md, parent, newVersions,
                     incremental)
  {
    if incremental {
      LoadedAfterPut(t, cp, newVersions);
    }
  }

  lemma LoadedAfterPut(t: ThreadRows, cp: Checkpoint, newVersions: map<Channel, Version>)
    ensures cp.(values := Some(Attached(NewBlobs(cp, newVersions) + t.bl, cp.versions))) == cp
       <==> VersionsMeanValues(t, cp, newVersions)
  {
    if cp.values.Some? { PutValuesIff(t, cp, newVersions); }
  }

  lemma OtherIsReadIff(t: ThreadRows, cp: Checkpoint, newVersions: map<Channel, Version>, saved: Record)
    requires saved.cp.values.None?
    ensures Attached(NewBlobs(cp, newVersions) + t.bl, saved.cp.versions) == Attached(t.bl, saved.cp.versions)
       <==> !FillsGap(t, cp, newVersions, saved)
  {
    var was, read := Attached(t.bl, saved.cp.versions), Attached(NewBlobs(cp, newVersions) + t.bl, saved.cp.versions);
    forall ch | ch in saved.cp.versions
      ensures (ch in was ==> ch in read && read[ch] == was[ch])
      ensures ch in read && ch !in was <==> cp.values.Some? && BringsBlob(t, cp, newVersions, ch, saved.cp.versions[ch])
    {
      AttachedAfterPut(t, cp, newVersions, ch, saved.cp.versions[ch]);
    }
    if !FillsGap(t, cp, newVersions, saved) {
      assert read.Keys == was.Keys;
    } else {
      var ch :| ch in saved.cp.versions && BringsBlob(t, cp, newVersions, ch, saved.cp.versions[ch]);
      assert ch in read && ch !in was;
    }
  }

  lemma OtherIsRead(t: ThreadRows, id: Id, cp: Checkpoint, md: Metadata, parent: Option<Id>,
                    newVersions: map<Channel, Version>, incremental: bool, publish: bool, other: Id)
    requires other != id
    ensures ReadsOther(t, Put(t, id, cp, md, parent, newVersions, incremental, publish), cp, newVersions, incremental, other)
  {
    if other in t.ck && t.ck[other].cp.values.None? {
      OtherIsReadIff(t, cp, newVersions, t.ck[other]);
    }
  }

  /** The checkpoints a walk may pass are not filled up by the put. */
  predicate NoGapFilled(t: ThreadRows, id: Id, cp: Checkpoint, newVersions: map<Channel, Version>, incremental: bool) {
    incremental ==> forall other :: other in t.ck && other != id ==> !FillsGap(t, cp, newVersions, t.ck[other])
  }

  lemma {:induction false} OlderWalkStays(t: ThreadRows, id: Id, cp: Checkpoint, md: Metadata, parent: Option<Id>,
                                          newVersions: map<Channel, Version>, incremental: bool, publish: bool,
                                          cursor: Option<Id>, ch: Channel)
    requires ParentsOlder(t) && NoGapFilled(t, id, cp, newVersions, incremental)
    requires ParentsOlder(Put(t, id, cp, md, parent, newVersions, incremental, publish))
    requires cursor.Some? ==> cursor.value < id
    ensures Walk(Put(t, id, cp, md, parent, newVersions, incremental, publish), cursor, ch) == Walk(t, cursor, ch)
    decreases Height(cursor)
  {
    var after := Put(t, id, cp, md, parent, newVersions, incremental, publish);
    if cursor.Some? && cursor.value in t.ck {
      var saved := t.ck[cursor.value];
      OlderWalkStays(t, id, cp, md, parent, newVersions, incremental, publish, saved.parent, ch);
      if saved.cp.values.None? && incremental { OtherIsReadIff(t, cp, newVersions, saved); }
      assert AllValues(after, saved) == AllValues(t, saved);
    }
  }

  /** What a delta channel of the put checkpoint is replayed from is what lies above the
      parent it was put with. */
  lemma WalkFromPut(t: ThreadRows, id: Id, cp: Checkpoint, md: Metadata, parent: Option<Id>,
                    newVersions: map<Channel, Version>, incremental: bool, publish: bool)
    requires ParentsOlder(t) && (parent.Some? ==> parent.value < id) && NoGapFilled(t, id, cp, newVersions, incremental)
    ensures var after := Put(t, id, cp, md, parent, newVersions, incremental, publish);
            && ParentsOlder(after) && id in after.ck
            && forall ch :: Walk(after, after.ck[id].parent, ch) == Walk(t, parent, ch)
  {
    forall ch
      ensures Walk(Put(t, id, cp, md, parent, newVersions, incremental, publish), parent, ch) == Walk(t, parent, ch)
    {
      OlderWalkStays(t, id, cp, md, parent, newVersions, incremental, publish, parent, ch);
    }
  }

  /** A put, said of what is read of every checkpoint afterwards. */
  ghost predicate PutDone(before: ThreadRows, after: ThreadRows, id: Id, cp: Checkpoint, md: Metadata,
                          parent: Option<Id>, newVersions: map<Channel, Version>, incremental: bool)
  {
    forall any :: ReadAfterPut(before, after, id, cp, md, parent, newVersions, incremental, any)
  }

  ghost predicate ReadAfterPut(before: ThreadRows, after: ThreadRows, id: Id, cp: Checkpoint, md: Metadata,
                               parent: Option<Id>, newVersions: map<Channel, Version>, incremental: bool, any: Id)
  {
    if any == id then
      && ReadsPut(before, after, id, cp, md, parent, newVersions, incremental)
      && (ParentsOlder(before) && (parent.Some? ==> parent.value < id) && NoGapFilled(before, id, cp, newVersions, incremental)
          ==> ReplaysParent(before, after, id, parent))
    else ReadsOther(before, after, cp, newVersions, incremental, any)
  }

  ghost predicate ReplaysParent(before: ThreadRows, after: ThreadRows, id: Id, parent: Option<Id>)
    requires ParentsOlder(before)
  {
    && ParentsOlder(after) && id in after.ck
    && forall ch :: Walk(after, after.ck[id].parent, ch) == Walk(before, parent, ch)
  }

  lemma PutIsDone(t: ThreadRows, id: Id, cp: Checkpoint, md: Metadata, parent: Option<Id>,
                  newVersions: map<Channel, Version>, incremental: bool, publish: bool)
    ensures PutDone(t, Put(t, id, cp, md, parent, newVersions, incremental, publish), id, cp, md, parent, newVersions,
                    incremental)
  {
    var after := Put(t, id, cp, md, parent, newVersions, incremental, publish);
    forall any ensures ReadAfterPut(t, after, id, cp, md, parent, newVersions, incremental, any) {
      if any == id {
        PutIsRead(t, id, cp, md, parent, newVersions, incremental, publish);
        if ParentsOlder(t) && (parent.Some? ==> parent.value < id) && NoGapFilled(t, id, cp, newVersions, incremental) {
          WalkFromPut(t, id, cp, md, parent, newVersions, incremental, publish);
        }
      } else {
        OtherIsRead(t, id, cp, md, parent, newVersions, incremental, publish, any);
      }
    }
  }

  // ----------------------------------------------------------------- what a drop drops

  /** Some checkpoint that is kept and stored names the version. */
  ghost predicate Named(t: ThreadRows, kept: set<Id>, k: BlobKey) {
    exists id :: id in kept && id in t.ck && k.0 in t.ck[id].cp.versions && t.ck[id].cp.versions[k.0] == k.1
  }

  /** The rows of a thread: a checkpoint, its writes, a blob, the pointer. */
  datatype Row = OfCheckpoint(id: Id) | OfWrites(id: Id) | OfBlob(k: BlobKey) | OfPointer

  /** Row by row: the doomed checkpoints and their writes are gone and all others stay;
      blobs, if values are stored apart, stay exactly where a kept checkpoint names them;
      and a pointer that named a doomed checkpoint names the newest kept one, or is gone. */
  ghost predicate Dropped(before: ThreadRows, after: ThreadRows, doomed: set<Id>, kept: set<Id>, incremental: bool,
                          indexed: bool)
  {
    forall row :: DroppedAt(before, after, doomed, kept, incremental, indexed, row)
  }

  ghost predicate DroppedAt(before: ThreadRows, after: ThreadRows, doomed: set<Id>, kept: set<Id>, incremental: bool,
                            indexed: bool, row: Row)
  {
    match row
    case OfCheckpoint(id) =>
      (id in after.ck <==> id in before.ck && id !in doomed) && (id in after.ck ==> after.ck[id] == before.ck[id])
    case OfWrites(id) =>
      if id in doomed then id !in after.wr else WritesOf(after, id) == WritesOf(before, id)
    case OfBlob(k) =>
      && (k in after.bl <==> k in before.bl && (incremental ==> Named(before, kept, k)))
      && (k in after.bl ==> after.bl[k] == before.bl[k])
    case OfPointer =>
      if indexed || before.latest.None? || before.latest.value !in doomed then after.latest == before.latest
      else if kept == {} then after.latest == None
      else after.latest.Some? && Greatest(kept, after.latest.value)
  }

  lemma DropIsDropped(t: ThreadRows, doomed: set<Id>, kept: set<Id>, incremental: bool, indexed: bool)
    ensures Dropped(t, Drop(t, doomed, kept, incremental, indexed), doomed, kept, incremental, indexed)
  {
    forall k ensures k in Referenced(t, kept) <==> Named(t, kept, k) {
    }
  }

  /** Without an index the pointer then names no doomed checkpoint. */
  lemma DroppedPointer(before: ThreadRows, after: ThreadRows, doomed: set<Id>, kept: set<Id>, incremental: bool)
    requires Dropped(before, after, doomed, kept, incremental, false) && kept !! doomed
    ensures after.latest.Some? ==> after.latest.value !in doomed
  {
    assert DroppedAt(before, after, doomed, kept, incremental, false, OfPointer);
  }

  // --------------------------------------------------------------- whose run it was

  /** The checkpoint was written in one of the runs. */
  predicate OfRun(saved: Record, wanted: set<string>) {
    saved.md.runId.Some? && saved.md.runId.value in wanted
  }

  function OfRuns(t: ThreadRows, wanted: set<string>): set<Id> {
    set id | id in t.ck && OfRun(t.ck[id], wanted)
  }

  /** Exactly the checkpoints of the runs are dropped, with what only they needed; a thread
      without one is left alone. */
  ghost predicate RunsDropped(before: ThreadRows, after: ThreadRows, wanted: set<string>, incremental: bool, indexed: bool) {
    forall row :: RunsDroppedAt(before, after, wanted, incremental, indexed, row)
  }

  ghost predicate RunsDroppedAt(before: ThreadRows, after: ThreadRows, wanted: set<string>, incremental: bool,
                                indexed: bool, row: Row)
  {
    var doomed := OfRuns(before, wanted);
    if doomed == {} then after == before
    else DroppedAt(before, after, doomed, before.ck.Keys - doomed, incremental, indexed, row)
  }

  lemma DeleteRunsDrops(t: ThreadRows, wanted: set<string>, incremental: bool, indexed: bool)
    ensures RunsDropped(t, DeleteRuns(t, wanted, incremental, indexed), wanted, incremental, indexed)
  {
    var doomed := OfRuns(t, wanted);
    assert doomed == RunCheckpoints(t, wanted);
    DropIsDropped(t, doomed, t.ck.Keys - doomed, incremental, indexed);
    forall row ensures RunsDroppedAt(t, DeleteRuns(t, wanted, incremental, indexed), wanted, incremental, indexed, row) {
      if doomed != {} {
        assert DroppedAt(t, Drop(t, doomed, t.ck.Keys - doomed, incremental, indexed), doomed, t.ck.Keys - doomed,
                         incremental, indexed, row);
      }
    }
  }

  /** Said of each checkpoint: it is there afterwards exactly if it was, and was written in
      no run or in one that is not listed; and then it is as it was, its writes included. */
  ghost predicate RunsGoneAt(before: ThreadRows, after: ThreadRows, wanted: set<string>, id: Id) {
    && (id in after.ck <==> id in before.ck && (before.ck[id].md.runId.None? || before.ck[id].md.runId.value !in wanted))
    && (id in after.ck ==> after.ck[id] == before.ck[id] && WritesOf(after, id) == WritesOf(before, id))
    && (id in before.ck && id !in after.ck ==> WritesOf(after, id) == map[])
  }

  lemma RunsGone(before: ThreadRows, after: ThreadRows, wanted: set<string>, incremental: bool, indexed: bool, id: Id)
    requires RunsDropped(before, after, wanted, incremental, indexed)
    ensures RunsGoneAt(before, after, wanted, id)
  {
    assert id in OfRuns(before, wanted) <==> id in before.ck && OfRun(before.ck[id], wanted);
    assert RunsDroppedAt(before, after, wanted, incremental, indexed, OfCheckpoint(id));
    assert RunsDroppedAt(before, after, wanted, incremental, indexed, OfWrites(id));
  }

  // ------------------------------------------------------------------ the newest few

  /** The stored ids above `x`. */
  function NewerThan(s: set<Id>, x: Id): set<Id> {
    set y | y in s && y > x
  }

  /** An id is among the newest `n` exactly if fewer than `n` are newer. */
  lemma {:induction false} NewestIff(s: set<Id>, n: nat, x: Id)
    ensures x in Newest(s, n) <==> x in s && |NewerThan(s, x)| < n
  {
    if s != {} && n != 0 {
      var m := MaxId(s);
      NewestIff(s - {m}, n - 1, x);
      if x in s && x != m {
        assert NewerThan(s, x) == NewerThan(s - {m}, x) + {m};
        assert |NewerThan(s, x)| == |NewerThan(s - {m}, x)| + 1;
      } else if x == m {
        assert NewerThan(s, x) == {};
      }
    }
  }

  /** How large a thread may grow is counted from the limit, and from what the last trim
      kept: by more than eight, and by more than a quarter of that. */
  predicate GrownTooFar(size: nat, limit: nat, floor: Option<nat>) {
    && size > limit + 8 && size > limit + limit / 4
    && (floor.Some? ==> size > floor.value + 8 && size > floor.value + floor.value / 4)
  }

  // ------------------------------------------------------------------ up the parents

  /** Stored checkpoints, each the parent of the one before, starting with `start`. */
  ghost predicate Chain(t: ThreadRows, start: Option<Id>, path: seq<Id>) {
    && path != [] && start == Some(path[0])
    && (forall i :: 0 <= i < |path| ==> path[i] in t.ck)
    && (forall i :: 0 <= i < |path| - 1 ==> t.ck[path[i]].parent == Some(path[i + 1]))
  }

  predicate HoldsValue(t: ThreadRows, id: Id, ch: Channel)
    requires id in t.ck
  {
    ch in AllValues(t, t.ck[id])
  }

  /** A chain on which nothing but perhaps the last checkpoint holds a value. */
  ghost predicate ChainFor(t: ThreadRows, start: Option<Id>, path: seq<Id>, ch: Channel) {
    Chain(t, start, path) && forall i :: 0 <= i < |path| - 1 ==> !HoldsValue(t, path[i], ch)
  }

  lemma ChainCons(t: ThreadRows, id: Id, path: seq<Id>, ch: Channel)
    requires id in t.ck && ChainFor(t, t.ck[id].parent, path, ch) && !HoldsValue(t, id, ch)
    ensures ChainFor(t, Some(id), [id] + path, ch)
  {
    var longer := [id] + path;
    forall i | 0 <= i < |longer| - 1
      ensures !HoldsValue(t, longer[i], ch) && t.ck[longer[i]].parent == Some(longer[i + 1])
    {
      if i > 0 { assert longer[i] == path[i - 1] && longer[i + 1] == path[i]; }
    }
  }

  lemma ChainTail(t: ThreadRows, start: Option<Id>, path: seq<Id>, ch: Channel)
    requires ChainFor(t, start, path, ch) && |path| > 1
    ensures ChainFor(t, t.ck[path[0]].parent, path[1..], ch) && !HoldsValue(t, path[0], ch)
  {
  }

  /** `a` is reached from `cursor` without passing a value for one of the channels. */
  ghost predicate Reached(t: ThreadRows, cursor: Option<Id>, missing: set<Channel>, a: Id) {
    exists path, ch :: ch in missing && ReachedBy(t, cursor, path, ch, a)
  }

  ghost predicate ReachedBy(t: ThreadRows, cursor: Option<Id>, path: seq<Id>, ch: Channel, a: Id) {
    ChainFor(t, cursor, path, ch) && path[|path| - 1] == a
  }

  /** Exactly those are the ancestors that are kept. */
  lemma {:induction false} AncestorsIff(t: ThreadRows, cursor: Option<Id>, missing: set<Channel>, a: Id)
    requires ParentsOlder(t)
    ensures a in Ancestors(t, cursor, missing) <==> Reached(t, cursor, missing, a)
    decreases Height(cursor)
  {
    if missing != {} && cursor.Some? && cursor.value in t.ck {
      var id := cursor.value;
      var still := missing - Held(t, t.ck[id], missing).Keys;
      AncestorsIff(t, t.ck[id].parent, still, a);
      if a == id {
        var ch :| ch in missing;
        assert ReachedBy(t, cursor, [id], ch, a);
      } else {
        if Reached(t, t.ck[id].parent, still, a) {
          var path, ch :| ch in still && ReachedBy(t, t.ck[id].parent, path, ch, a);
          ChainCons(t, id, path, ch);
          assert ReachedBy(t, cursor, [id] + path, ch, a);
        }
        if Reached(t, cursor, missing, a) {
          var path, ch :| ch in missing && ReachedBy(t, cursor, path, ch, a);
          ChainTail(t, cursor, path, ch);
          assert ReachedBy(t, t.ck[id].parent, path[1..], ch, a);
        }
      }
    }
  }

  /** A checkpoint survives a trim exactly if it is among the newest `keep`, or one of
      those names a delta channel, holds no value for it, and reaches the checkpoint up its
      parents without passing one that does. */
  ghost predicate Survives(t: ThreadRows, keep: nat, id: Id) {
    || InWindow(t, keep, id)
    || exists s, ch :: InWindow(t, keep, s) && ReplaysFrom(t, s, ch, id)
  }

  ghost predicate InWindow(t: ThreadRows, keep: nat, id: Id) {
    id in t.ck && |NewerThan(t.ck.Keys, id)| < keep
  }

  ghost predicate ReplaysFrom(t: ThreadRows, s: Id, ch: Channel, a: Id) {
    && s in t.ck && ch in t.ck[s].md.delta && !HoldsValue(t, s, ch)
    && exists path :: ReachedBy(t, t.ck[s].parent, path, ch, a)
  }

  lemma NeededIff(t: ThreadRows, s: Id, a: Id)
    requires ParentsOlder(t) && s in t.ck
    ensures a in NeededBy(t, s) <==> exists ch :: ReplaysFrom(t, s, ch, a)
  {
    var missing := Missing(t, t.ck[s]);
    AncestorsIff(t, t.ck[s].parent, missing, a);
    if Reached(t, t.ck[s].parent, missing, a) {
      var path, ch :| ch in missing && ReachedBy(t, t.ck[s].parent, path, ch, a);
      assert ReplaysFrom(t, s, ch, a);
    }
    if ch :| ReplaysFrom(t, s, ch, a) {
      var path :| ReachedBy(t, t.ck[s].parent, path, ch, a);
      assert ch in missing;
    }
  }

  lemma TrimKeepsIff(t: ThreadRows, keep: nat, id: Id)
    requires ParentsOlder(t)
    ensures id in TrimKeeps(t, keep) <==> Survives(t, keep, id)
  {
    var survivors := Newest(t.ck.Keys, keep);
    NewestIff(t.ck.Keys, keep, id);
    forall s ensures s in survivors <==> InWindow(t, keep, s) {
      NewestIff(t.ck.Keys, keep, s);
    }
    if s :| s in survivors && id in NeededBy(t, s) {
      NeededIff(t, s, id);
      var ch :| ReplaysFrom(t, s, ch, id);
      assert InWindow(t, keep, s) && ReplaysFrom(t, s, ch, id);
    }
    if s, ch :| InWindow(t, keep, s) && ReplaysFrom(t, s, ch, id) {
      NeededIff(t, s, id);
      assert id in DeltaAncestors(t, survivors);
    }
  }

  ghost function Surviving(t: ThreadRows, keep: nat): set<Id> {
    set id | id in t.ck && Survives(t, keep, id)
  }

  /** A trim drops exactly what does not survive it, with what only that needed. */
  ghost predicate Trimmed(before: ThreadRows, after: ThreadRows, keep: nat, incremental: bool, indexed: bool) {
    forall row :: TrimmedAt(before, after, keep, incremental, indexed, row)
  }

  ghost predicate TrimmedAt(before: ThreadRows, after: ThreadRows, keep: nat, incremental: bool, indexed: bool, row: Row) {
    var kept := Surviving(before, keep);
    if kept == before.ck.Keys then after == before
    else DroppedAt(before, after, before.ck.Keys - kept, kept, incremental, indexed, row)
  }

  lemma SurvivingIs(t: ThreadRows, keep: nat)
    requires ParentsOlder(t)
    ensures Surviving(t, keep) == TrimKeeps(t, keep) && Surviving(t, keep) <= t.ck.Keys
  {
    forall id ensures id in TrimKeeps(t, keep) <==> id in Surviving(t, keep) {
      TrimKeepsIff(t, keep, id);
      if Survives(t, keep, id) { SurvivorsAreStored(t, keep, id); }
    }
  }

  lemma TrimIsTrimmed(t: ThreadRows, keep: nat, incremental: bool, indexed: bool)
    requires ParentsOlder(t)
    ensures Trimmed(t, Trim(t, keep, incremental, indexed), keep, incremental, indexed)
  {
    SurvivingIs(t, keep);
    var kept := Surviving(t, keep);
    var doomed := t.ck.Keys - kept;
    DropIsDropped(t, doomed, kept, incremental, indexed);
    forall row ensures TrimmedAt(t, Trim(t, keep, incremental, indexed), keep, incremental, indexed, row) {
      if doomed != {} {
        assert DroppedAt(t, Drop(t, doomed, kept, incremental, indexed), doomed, kept, incremental, indexed, row);
      }
    }
  }

  lemma SurvivorsAreStored(t: ThreadRows, keep: nat, id: Id)
    requires Survives(t, keep, id)
    ensures id in t.ck
  {
  }

  // --------------------------------------------------------- what a walk replays

  /** `picked` are the writes to `ch`, all of them, in their order. */
  ghost predicate Picks(writes: seq<Write>, picked: seq<Write>, chs: set<Channel>, at: seq<nat>) {
    && |at| == |picked|
    && (forall k :: 0 <= k < |at| ==> at[k] < |writes| && picked[k] == writes[at[k]] && picked[k].channel in chs)
    && (forall j, k :: 0 <= j < k < |at| ==> at[j] < at[k])
    && (forall i :: 0 <= i < |writes| && writes[i].channel in chs ==> i in at)
  }

  lemma {:induction false} ToChannelsPicks(writes: seq<Write>, chs: set<Channel>) returns (at: seq<nat>)
    ensures Picks(writes, ToChannels(writes, chs), chs, at)
  {
    if writes == [] {
      at := [];
    } else {
      var n := |writes| - 1;
      at := ToChannelsPicks(writes[..n], chs);
      OneMorePick(writes, ToChannels(writes[..n], chs), chs, at);
      if writes[n].channel in chs { at := at + [n]; }
    }
  }

  lemma OneMorePick(writes: seq<Write>, picked: seq<Write>, chs: set<Channel>, at: seq<nat>)
    requires writes != [] && Picks(writes[..|writes| - 1], picked, chs, at)
    ensures var n := |writes| - 1;
            if writes[n].channel in chs then Picks(writes, picked + [writes[n]], chs, at + [n])
            else Picks(writes, picked, chs, at)
  {
    var n := |writes| - 1;
    if writes[n].channel in chs {
      forall i | 0 <= i < |writes| && writes[i].channel in chs ensures i in at + [n] {
        if i < n {
          assert writes[..n][i] == writes[i];
        } else {
          assert (at + [n])[|at|] == n;
        }
      }
    } else {
      forall i | 0 <= i < |writes| && writes[i].channel in chs ensures i in at {
        assert writes[..n][i] == writes[i];
      }
    }
  }

  /** The writes to a channel along a chain, the last checkpoint's first. */
  function Along(t: ThreadRows, path: seq<Id>, ch: Channel): seq<Write> {
    if path == [] then [] else Along(t, path[1..], ch) + ToChannels(Pending(t, path[0]), {ch})
  }

  /** The chain goes as far as it can: to the first checkpoint that holds a value, or to
      one whose parent is none or not stored. */
  ghost predicate GoesToTheEnd(t: ThreadRows, path: seq<Id>, ch: Channel)
    requires path != [] && path[|path| - 1] in t.ck
  {
    var last := path[|path| - 1];
    HoldsValue(t, last, ch) || t.ck[last].parent.None? || t.ck[last].parent.value !in t.ck
  }

  /** What a walk gives: the writes along the chain up to the nearest checkpoint that holds
      a value for the channel, oldest first, with that value as the seed. */
  lemma {:induction false} WalkReplays(t: ThreadRows, start: Option<Id>, ch: Channel) returns (path: seq<Id>)
    requires ParentsOlder(t)
    ensures path == [] <==> start.None? || start.value !in t.ck
    ensures path == [] ==> Walk(t, start, ch) == History([], None)
    ensures path != [] ==>
      && ChainFor(t, start, path, ch) && GoesToTheEnd(t, path, ch)
      && Walk(t, start, ch).writes == Along(t, path, ch)
      && var last := path[|path| - 1];
         Walk(t, start, ch).seed == if HoldsValue(t, last, ch) then Some(AllValues(t, t.ck[last])[ch]) else None
    decreases Height(start)
  {
    if start.None? || start.value !in t.ck {
      path := [];
    } else {
      var id := start.value;
      assert Along(t, [], ch) == [];
      if HoldsValue(t, id, ch) {
        path := [id];
        assert [] + ToChannels(Pending(t, id), {ch}) == ToChannels(Pending(t, id), {ch});
      } else {
        var older := WalkReplays(t, t.ck[id].parent, ch);
        path := [id] + older;
        assert path[1..] == older;
        if older != [] {
          ChainCons(t, id, older, ch);
          assert path[|path| - 1] == older[|older| - 1];
        }
      }
    }
  }

  // ----------------------------------------------------------- what pending writes change

  /** Writes put for one checkpoint change no checkpoint, no value, no pointer and no other
      checkpoint's writes. */
  ghost predicate OnlyWritesOf(before: ThreadRows, after: ThreadRows, id: Id) {
    forall row :: row != OfWrites(id) ==> SameRow(before, after, row)
  }

  ghost predicate SameRow(before: ThreadRows, after: ThreadRows, row: Row) {
    match row
    case OfCheckpoint(id) => (id in after.ck <==> id in before.ck) && (id in before.ck ==> after.ck[id] == before.ck[id])
    case OfWrites(id) => WritesOf(after, id) == WritesOf(before, id)
    case OfBlob(k) => (k in after.bl <==> k in before.bl) && (k in before.bl ==> after.bl[k] == before.bl[k])
    case OfPointer => after.latest == before.latest
  }

  lemma OnlyItsWrites(t: ThreadRows, id: Id, task: string, path: string, writes: seq<(Channel, Value)>,
                      special: map<Channel, int>)
    ensures OnlyWritesOf(t, PutWrites(t, id, task, path, writes, special), id)
  {
    forall row | row != OfWrites(id) ensures SameRow(t, PutWrites(t, id, task, path, writes, special), row) {
    }
  }

  // ---------------------------------------------------------------- whose thread it is

  /** A copy names the target where the source's record named the source, and is otherwise
      the source's record. */
  predicate Retargeted(before: Record, after: Record, source: string, target: string) {
    && after.cp == before.cp && after.parent == before.parent
    && after.md.delta == before.md.delta && after.md.runId == before.md.runId && after.md.rest == before.md.rest
    && after.md.threadId == if before.md.threadId == Some(source) then Some(target) else before.md.threadId
  }

  /** A map laid over another. */
  ghost predicate Over<K(!new), V(!new)>(top: map<K, V>, bottom: map<K, V>, m: map<K, V>) {
    && (forall k :: k in m <==> k in top || k in bottom)
    && (forall k :: k in m ==> m[k] == if k in top then top[k] else bottom[k])
  }

  /** The source laid over the target, row by row. */
  ghost predicate CopiedOver(src: ThreadRows, dst: ThreadRows, after: ThreadRows, source: string, target: string) {
    forall row :: CopiedOverAt(src, dst, after, source, target, row)
  }

  ghost predicate CopiedOverAt(src: ThreadRows, dst: ThreadRows, after: ThreadRows, source: string, target: string,
                             row: Row)
  {
    match row
    case OfCheckpoint(id) =>
      && (id in after.ck <==> id in src.ck || id in dst.ck)
      && (id in src.ck ==> id in after.ck && Retargeted(src.ck[id], after.ck[id], source, target))
      && (id in dst.ck && id !in src.ck ==> id in after.ck && after.ck[id] == dst.ck[id])
    case OfWrites(id) => Over(WritesOf(src, id), WritesOf(dst, id), WritesOf(after, id))
    case OfBlob(k) =>
      (k in after.bl <==> k in src.bl || k in dst.bl) && (k in after.bl ==> after.bl[k] == if k in src.bl then src.bl[k] else dst.bl[k])
    case OfPointer => true
  }

  lemma CopyIsCopiedOver(src: ThreadRows, dst: ThreadRows, source: string, target: string, indexed: bool)
    ensures CopiedOver(src, dst, CopyInto(src, dst, source, target, indexed), source, target)
  {
    forall row ensures CopiedOverAt(src, dst, CopyInto(src, dst, source, target, indexed), source, target, row) {
      match row
      case OfWrites(id) => CopiedWritesOf(src, dst, source, target, indexed, id);
      case _ =>
    }
  }

  lemma CopiedWritesOf(src: ThreadRows, dst: ThreadRows, source: string, target: string, indexed: bool, id: Id)
    ensures WritesOf(CopyInto(src, dst, source, target, indexed), id) == WritesOf(dst, id) + WritesOf(src, id)
  {
    assert map[] + WritesOf(src, id) == WritesOf(src, id);
    assert WritesOf(dst, id) + map[] == WritesOf(dst, id);
  }
}
