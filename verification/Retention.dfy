/** Retention loses nothing a resume needs.

    A thread kept in full and the same thread trimmed to its newest `n` checkpoints
    are run side by side. As long as both see the same puts and writes, every
    checkpoint in the window reads back the same from both, and so does the replay
    history of every delta channel it does not hold itself - whenever, and however
    often, the trimmed one was trimmed. */
module Retention {
  import opened Wrappers
  import opened Ids
  import opened WriteKeys
  import opened CheckpointRows

  /** Every stored blob is the value its `(channel, version)` stands for. */
  ghost predicate BlobsMean(t: ThreadRows, g: BlobKey -> Blob) {
    forall k :: k in t.bl ==> t.bl[k] == g(k)
  }

  ghost predicate BlobsPresent(bl: map<BlobKey, Blob>, versions: map<Channel, Version>) {
    forall ch :: ch in versions ==> (ch, versions[ch]) in bl
  }

  /** Every blob an incremental checkpoint refers to is stored. */
  ghost predicate Settled(t: ThreadRows) {
    forall id :: id in t.ck && t.ck[id].cp.values.None? ==> BlobsPresent(t.bl, t.ck[id].cp.versions)
  }

  /** Nothing in the store contradicts what a `(channel, version)` pair stands for. */
  ghost predicate Sound(t: ThreadRows, g: BlobKey -> Blob) {
    Settled(t) && BlobsMean(t, g)
  }

  /** The trimmed thread has some of the full one's checkpoints, each as it was and with
      all of its writes; writes to checkpoints yet to come are in both. */
  ghost predicate Mirrors(full: ThreadRows, trimmed: ThreadRows) {
    && trimmed.ck.Keys <= full.ck.Keys
    && (forall id :: id in trimmed.ck ==> trimmed.ck[id] == full.ck[id])
    && (forall id :: (id in full.ck ==> id in trimmed.ck) ==> WritesOf(trimmed, id) == WritesOf(full, id))
  }

  /** `kept` has the newest `n` checkpoints and everything their delta channels replay. */
  ghost predicate Covers(full: ThreadRows, kept: set<Id>, n: nat)
    requires ParentsOlder(full)
  {
    && Newest(full.ck.Keys, n) <= kept
    && (forall id :: id in Newest(full.ck.Keys, n) ==> NeededBy(full, id) <= kept)
  }

  /** The relation between the full thread and the trimmed one. */
  ghost predicate Retains(full: ThreadRows, trimmed: ThreadRows, n: nat, g: BlobKey -> Blob) {
    && ParentsOlder(full)
    && Sound(full, g) && Sound(trimmed, g)
    && Mirrors(full, trimmed)
    && Covers(full, trimmed.ck.Keys, n)
  }

  // ------------------------------------------------- reading from either thread

  lemma SameAttached(some: map<BlobKey, Blob>, all: map<BlobKey, Blob>, versions: map<Channel, Version>,
                     g: BlobKey -> Blob)
    requires forall k :: k in some ==> some[k] == g(k)
    requires forall k :: k in all ==> all[k] == g(k)
    requires BlobsPresent(some, versions) && BlobsPresent(all, versions)
    ensures Attached(some, versions) == Attached(all, versions)
  {
  }

  lemma SameValues(full: ThreadRows, trimmed: ThreadRows, n: nat, g: BlobKey -> Blob, id: Id)
    requires Retains(full, trimmed, n, g) && id in trimmed.ck
    ensures AllValues(trimmed, trimmed.ck[id]) == AllValues(full, full.ck[id])
    ensures LoadedCheckpoint(trimmed, trimmed.ck[id], true) == LoadedCheckpoint(full, full.ck[id], true)
  {
    var cp := full.ck[id].cp;
    if cp.values.None? {
      SameAttached(trimmed.bl, full.bl, cp.versions, g);
    }
  }

  lemma SameTuple(full: ThreadRows, trimmed: ThreadRows, n: nat, g: BlobKey -> Blob, id: Id, incremental: bool)
    requires Retains(full, trimmed, n, g) && id in trimmed.ck
    ensures GetTuple(trimmed, id, incremental) == GetTuple(full, id, incremental)
  {
    SameValues(full, trimmed, n, g, id);
    assert WritesOf(trimmed, id) == WritesOf(full, id);
  }

  /** Fewer channels to find, a shorter walk. */
  lemma {:induction false} AncestorsMonotone(t: ThreadRows, cursor: Option<Id>, few: set<Channel>, many: set<Channel>)
    requires ParentsOlder(t) && few <= many
    ensures Ancestors(t, cursor, few) <= Ancestors(t, cursor, many)
    decreases Height(cursor)
  {
    if !(few == {} || cursor.None? || cursor.value !in t.ck) {
      var saved := t.ck[cursor.value];
      AncestorsMonotone(t, saved.parent, few - Held(t, saved, few).Keys, many - Held(t, saved, many).Keys);
    }
  }

  lemma {:induction false} SameAncestors(full: ThreadRows, trimmed: ThreadRows, n: nat, g: BlobKey -> Blob,
                                         cursor: Option<Id>, missing: set<Channel>)
    requires Retains(full, trimmed, n, g) && ParentsOlder(trimmed)
    requires Ancestors(full, cursor, missing) <= trimmed.ck.Keys
    ensures Ancestors(trimmed, cursor, missing) == Ancestors(full, cursor, missing)
    decreases Height(cursor)
  {
    if !(missing == {} || cursor.None? || cursor.value !in full.ck) {
      var id := cursor.value;
      assert id in Ancestors(full, cursor, missing);
      SameValues(full, trimmed, n, g, id);
      var saved := full.ck[id];
      SameAncestors(full, trimmed, n, g, saved.parent, missing - Held(full, saved, missing).Keys);
    }
  }

  /** A channel on the list of missing ones replays the same from both threads. */
  lemma {:induction false} SameWalk(full: ThreadRows, trimmed: ThreadRows, n: nat, g: BlobKey -> Blob,
                                    cursor: Option<Id>, missing: set<Channel>, ch: Channel)
    requires Retains(full, trimmed, n, g) && ParentsOlder(trimmed)
    requires ch in missing && Ancestors(full, cursor, missing) <= trimmed.ck.Keys
    ensures Walk(trimmed, cursor, ch) == Walk(full, cursor, ch)
    decreases Height(cursor)
  {
    if cursor.Some? && cursor.value in full.ck {
      var id := cursor.value;
      assert id in Ancestors(full, cursor, missing);
      SameValues(full, trimmed, n, g, id);
      assert WritesOf(trimmed, id) == WritesOf(full, id);
      var saved := full.ck[id];
      if ch !in AllValues(full, saved) {
        SameWalk(full, trimmed, n, g, saved.parent, missing - Held(full, saved, missing).Keys, ch);
      }
    }
  }

  lemma TrimmedParentsOlder(full: ThreadRows, trimmed: ThreadRows, n: nat, g: BlobKey -> Blob)
    requires Retains(full, trimmed, n, g)
    ensures ParentsOlder(trimmed)
  {
  }

  /** What the relation is for: every checkpoint in the window loads the same tuple,
      and every delta channel it names but does not hold replays the same history. */
  lemma WindowReadsTheSame(full: ThreadRows, trimmed: ThreadRows, n: nat, g: BlobKey -> Blob, id: Id,
                           incremental: bool)
    requires Retains(full, trimmed, n, g) && id in Newest(full.ck.Keys, n)
    ensures ParentsOlder(trimmed) && id in trimmed.ck && trimmed.ck[id] == full.ck[id]
    ensures GetTuple(trimmed, id, incremental) == GetTuple(full, id, incremental)
    ensures forall ch :: ch in Missing(full, full.ck[id]) ==>
              Walk(trimmed, full.ck[id].parent, ch) == Walk(full, full.ck[id].parent, ch)
  {
    TrimmedParentsOlder(full, trimmed, n, g);
    SameTuple(full, trimmed, n, g, id, incremental);
    var saved := full.ck[id];
    assert NeededBy(full, id) <= trimmed.ck.Keys;
    forall ch | ch in Missing(full, saved)
      ensures Walk(trimmed, saved.parent, ch) == Walk(full, saved.parent, ch)
    {
      SameWalk(full, trimmed, n, g, saved.parent, Missing(full, saved), ch);
    }
  }

  // ------------------------------------------------------------------ trimming

  lemma SameNeeds(full: ThreadRows, trimmed: ThreadRows, n: nat, g: BlobKey -> Blob, id: Id)
    requires Retains(full, trimmed, n, g) && ParentsOlder(trimmed) && id in Newest(full.ck.Keys, n)
    ensures NeededBy(trimmed, id) == NeededBy(full, id) <= trimmed.ck.Keys
  {
    assert NeededBy(full, id) <= trimmed.ck.Keys;
    SameValues(full, trimmed, n, g, id);
    SameAncestors(full, trimmed, n, g, full.ck[id].parent, Missing(full, full.ck[id]));
  }

  lemma DeltaAncestorsAgree(full: ThreadRows, trimmed: ThreadRows, window: set<Id>)
    requires ParentsOlder(full) && ParentsOlder(trimmed)
    requires forall id :: id in window ==> NeededBy(trimmed, id) == NeededBy(full, id)
    ensures DeltaAncestors(trimmed, window) == DeltaAncestors(full, window)
  {
  }

  lemma DeltaAncestorsWithin(t: ThreadRows, window: set<Id>, bound: set<Id>)
    requires ParentsOlder(t)
    requires forall id :: id in window ==> NeededBy(t, id) <= bound
    ensures DeltaAncestors(t, window) <= bound
  {
  }

  lemma TrimKeepsTheWindow(full: ThreadRows, trimmed: ThreadRows, n: nat, g: BlobKey -> Blob)
    requires Retains(full, trimmed, n, g)
    ensures ParentsOlder(trimmed)
    ensures Covers(full, TrimKeeps(trimmed, n), n) && TrimKeeps(trimmed, n) <= trimmed.ck.Keys
  {
    TrimmedParentsOlder(full, trimmed, n, g);
    NewestOfSubset(full.ck.Keys, trimmed.ck.Keys, n);
    var window := Newest(full.ck.Keys, n);
    forall id | id in window
      ensures NeededBy(trimmed, id) == NeededBy(full, id) <= trimmed.ck.Keys
    {
      SameNeeds(full, trimmed, n, g, id);
    }
    DeltaAncestorsAgree(full, trimmed, window);
    DeltaAncestorsWithin(trimmed, window, trimmed.ck.Keys);
    NeedsAreKept(full, window);
  }

  lemma NeedsAreKept(t: ThreadRows, window: set<Id>)
    requires ParentsOlder(t)
    ensures forall id :: id in window ==> NeededBy(t, id) <= DeltaAncestors(t, window)
  {
  }

  lemma TrimPreserves(full: ThreadRows, trimmed: ThreadRows, n: nat, g: BlobKey -> Blob,
                      incremental: bool, indexed: bool)
    requires Retains(full, trimmed, n, g)
    ensures ParentsOlder(trimmed)
    ensures Retains(full, Trim(trimmed, n, incremental, indexed), n, g)
  {
    TrimKeepsTheWindow(full, trimmed, n, g);
    var kept := TrimKeeps(trimmed, n);
    var doomed := trimmed.ck.Keys - kept;
    if doomed != {} {
      DropPreserves(full, trimmed, n, g, doomed, kept, incremental, indexed);
    }
  }

  lemma DropPreserves(full: ThreadRows, trimmed: ThreadRows, n: nat, g: BlobKey -> Blob,
                      doomed: set<Id>, kept: set<Id>, incremental: bool, indexed: bool)
    requires Retains(full, trimmed, n, g)
    requires kept <= trimmed.ck.Keys && doomed == trimmed.ck.Keys - kept
    requires Covers(full, kept, n)
    ensures Retains(full, Drop(trimmed, doomed, kept, incremental, indexed), n, g)
  {
    var after := Drop(trimmed, doomed, kept, incremental, indexed);
    assert after.ck.Keys == kept;
    DropIsSound(trimmed, g, doomed, kept, incremental, indexed);
    DropMirrors(full, trimmed, doomed, kept, incremental, indexed);
  }

  lemma DropMirrors(full: ThreadRows, trimmed: ThreadRows, doomed: set<Id>, kept: set<Id>,
                    incremental: bool, indexed: bool)
    requires Mirrors(full, trimmed) && doomed <= trimmed.ck.Keys
    ensures Mirrors(full, Drop(trimmed, doomed, kept, incremental, indexed))
  {
    var after := Drop(trimmed, doomed, kept, incremental, indexed);
    forall id | id in full.ck ==> id in after.ck
      ensures WritesOf(after, id) == WritesOf(full, id)
    {
      assert id !in doomed;
      assert WritesOf(trimmed, id) == WritesOf(full, id);
    }
  }

  lemma DropIsSound(t: ThreadRows, g: BlobKey -> Blob, doomed: set<Id>, kept: set<Id>,
                    incremental: bool, indexed: bool)
    requires Sound(t, g) && doomed == t.ck.Keys - kept
    ensures Sound(Drop(t, doomed, kept, incremental, indexed), g)
  {
    var after := Drop(t, doomed, kept, incremental, indexed);
    forall id | id in after.ck && after.ck[id].cp.values.None?
      ensures BlobsPresent(after.bl, after.ck[id].cp.versions)
    {
      assert BlobsPresent(t.bl, t.ck[id].cp.versions);
      forall ch | ch in after.ck[id].cp.versions
        ensures (ch, after.ck[id].cp.versions[ch]) in Referenced(t, kept)
      {
      }
    }
  }

  // ------------------------------------------------------------------ the run

  datatype Event =
    | PutEvent(id: Id, cp: Checkpoint, md: Metadata, parent: Option<Id>,
               newVersions: map<Channel, Version>, publish: bool)
    | WritesEvent(id: Id, task: string, path: string, writes: seq<(Channel, Value)>, special: map<Channel, int>)

  function Apply(t: ThreadRows, e: Event, incremental: bool): ThreadRows {
    match e
    case PutEvent(id, cp, md, parent, newVersions, publish) =>
      Put(t, id, cp, md, parent, newVersions, incremental, publish)
    case WritesEvent(id, task, path, writes, special) =>
      PutWrites(t, id, task, path, writes, special)
  }

  predicate ParentIsOlder(e: Event) {
    e.PutEvent? && e.parent.Some? ==> e.parent.value < e.id
  }

  /** Where the full thread can already find the blob of a channel version. */
  ghost predicate Inherited(full: ThreadRows, window: set<Id>, ch: Channel, ver: Version) {
    exists q :: q in window && q in full.ck && full.ck[q].cp.values.None?
                && ch in full.ck[q].cp.versions && full.ck[q].cp.versions[ch] == ver
  }

  /** What LangGraph promises of a put, measured on the full thread: a new id; a parent
      inside the window (forks included); in full storage, inline values; in incremental
      storage, blobs that mean their version and versions that are new or inherited from
      the window; and no delta channel that neither the checkpoint nor its parent holds
      and that the parent's metadata does not name. */
  ghost predicate PutAdmissible(full: ThreadRows, e: Event, n: nat, incremental: bool, g: BlobKey -> Blob)
    requires e.PutEvent?
  {
    var window := Newest(full.ck.Keys, n);
    var after := Apply(full, e, incremental);
    && ParentIsOlder(e)
    && (forall id :: id in full.ck ==> id < e.id)
    && (e.parent.Some? && e.parent.value in full.ck ==> e.parent.value in window)
    && (!incremental ==> e.cp.values.Some?)
    && (incremental ==> forall ch :: ch in e.newVersions ==> BlobOf(e.cp, ch) == g((ch, e.newVersions[ch])))
    && (incremental ==> forall ch :: ch in e.cp.versions ==>
          || (ch in e.newVersions && e.newVersions[ch] == e.cp.versions[ch])
          || Inherited(full, window, ch, e.cp.versions[ch]))
    && (e.parent.Some? && e.parent.value in full.ck ==>
          Missing(after, after.ck[e.id]) - AllValues(full, full.ck[e.parent.value]).Keys
            <= full.ck[e.parent.value].md.delta)
  }

  ghost predicate Admissible(full: ThreadRows, e: Event, n: nat, incremental: bool, g: BlobKey -> Blob) {
    e.PutEvent? ==> PutAdmissible(full, e, n, incremental, g)
  }

  lemma WritesPreserve(full: ThreadRows, trimmed: ThreadRows, n: nat, g: BlobKey -> Blob, e: Event, incremental: bool)
    requires Retains(full, trimmed, n, g) && e.WritesEvent?
    ensures Retains(Apply(full, e, incremental), Apply(trimmed, e, incremental), n, g)
  {
    EventMirrors(full, trimmed, e, incremental);
    var full' := Apply(full, e, incremental);
    forall id | id in Newest(full.ck.Keys, n) ensures NeededBy(full', id) <= trimmed.ck.Keys {
      assert NeededBy(full, id) <= trimmed.ck.Keys;
      SameCheckpointsSameAncestors(full, full', full.ck[id].parent, Missing(full, full.ck[id]));
    }
  }

  lemma EventMirrors(full: ThreadRows, trimmed: ThreadRows, e: Event, incremental: bool)
    requires Mirrors(full, trimmed) && (e.PutEvent? ==> e.id !in full.ck)
    ensures Mirrors(Apply(full, e, incremental), Apply(trimmed, e, incremental))
  {
    var full', trimmed' := Apply(full, e, incremental), Apply(trimmed, e, incremental);
    forall id | id in full'.ck ==> id in trimmed'.ck
      ensures WritesOf(trimmed', id) == WritesOf(full', id)
    {
      if id in full.ck ==> id in trimmed.ck {
        assert WritesOf(trimmed, id) == WritesOf(full, id);
      }
    }
  }

  /** The walk reads checkpoints and blobs only. */
  lemma {:induction false} SameCheckpointsSameAncestors(t: ThreadRows, t': ThreadRows, cursor: Option<Id>,
                                                        missing: set<Channel>)
    requires ParentsOlder(t) && t'.ck == t.ck && t'.bl == t.bl
    ensures ParentsOlder(t') && Ancestors(t', cursor, missing) == Ancestors(t, cursor, missing)
    decreases Height(cursor)
  {
    if !(missing == {} || cursor.None? || cursor.value !in t.ck) {
      var saved := t.ck[cursor.value];
      SameCheckpointsSameAncestors(t, t', saved.parent, missing - Held(t, saved, missing).Keys);
    }
  }

  // ----------------------------------------------------------------- new puts

  lemma PutSettles(t: ThreadRows, window: set<Id>, e: Event, incremental: bool, g: BlobKey -> Blob)
    requires Sound(t, g) && e.PutEvent? && window <= t.ck.Keys
    requires !incremental ==> e.cp.values.Some?
    requires incremental ==> forall ch :: ch in e.newVersions ==> BlobOf(e.cp, ch) == g((ch, e.newVersions[ch]))
    requires incremental ==> forall ch :: ch in e.cp.versions ==>
               || (ch in e.newVersions && e.newVersions[ch] == e.cp.versions[ch])
               || Inherited(t, window, ch, e.cp.versions[ch])
    ensures Sound(Apply(t, e, incremental), g)
  {
    var after := Apply(t, e, incremental);
    forall id | id in after.ck && after.ck[id].cp.values.None?
      ensures BlobsPresent(after.bl, after.ck[id].cp.versions)
    {
      if id == e.id {
        forall ch | ch in e.cp.versions ensures (ch, e.cp.versions[ch]) in after.bl {
          if ch in e.newVersions && e.newVersions[ch] == e.cp.versions[ch] {
            assert (ch, e.newVersions[ch]) in e.newVersions.Items;
          } else {
            var q :| q in window && q in t.ck && t.ck[q].cp.values.None?
                     && ch in t.ck[q].cp.versions && t.ck[q].cp.versions[ch] == e.cp.versions[ch];
            assert BlobsPresent(t.bl, t.ck[q].cp.versions);
          }
        }
      } else {
        assert BlobsPresent(t.bl, t.ck[id].cp.versions);
      }
    }
  }

  lemma OldValuesStay(t: ThreadRows, e: Event, incremental: bool, g: BlobKey -> Blob, id: Id)
    requires Settled(t) && BlobsMean(t, g) && e.PutEvent?
    requires BlobsMean(Apply(t, e, incremental), g)
    requires id in t.ck && id != e.id
    ensures AllValues(Apply(t, e, incremental), t.ck[id]) == AllValues(t, t.ck[id])
  {
    var after := Apply(t, e, incremental);
    var cp := t.ck[id].cp;
    if cp.values.None? {
      assert BlobsPresent(t.bl, cp.versions);
      assert BlobsPresent(after.bl, cp.versions);
      SameAttached(after.bl, t.bl, cp.versions, g);
    }
  }

  /** A newer checkpoint is never on an older one's walk. */
  lemma {:induction false} OldAncestorsStay(t: ThreadRows, e: Event, incremental: bool, g: BlobKey -> Blob,
                                            cursor: Option<Id>, missing: set<Channel>)
    requires ParentsOlder(t) && Settled(t) && BlobsMean(t, g) && e.PutEvent?
    requires BlobsMean(Apply(t, e, incremental), g) && ParentsOlder(Apply(t, e, incremental))
    requires cursor.Some? ==> cursor.value < e.id
    ensures Ancestors(Apply(t, e, incremental), cursor, missing) == Ancestors(t, cursor, missing)
    decreases Height(cursor)
  {
    if !(missing == {} || cursor.None? || cursor.value !in t.ck) {
      var saved := t.ck[cursor.value];
      OldValuesStay(t, e, incremental, g, cursor.value);
      OldAncestorsStay(t, e, incremental, g, saved.parent, missing - Held(t, saved, missing).Keys);
    }
  }

  /** The new checkpoint needs its parent and, at most, what its parent needs. */
  lemma NewNeeds(full: ThreadRows, e: Event, n: nat, incremental: bool, g: BlobKey -> Blob)
    requires ParentsOlder(full) && Settled(full) && BlobsMean(full, g) && e.PutEvent?
    requires PutAdmissible(full, e, n, incremental, g)
    requires BlobsMean(Apply(full, e, incremental), g) && ParentsOlder(Apply(full, e, incremental))
    ensures NeededBy(Apply(full, e, incremental), e.id)
              <= if e.parent.Some? && e.parent.value in full.ck
                 then {e.parent.value} + NeededBy(full, e.parent.value) else {}
  {
    var after := Apply(full, e, incremental);
    var missing := Missing(after, after.ck[e.id]);
    OldAncestorsStay(full, e, incremental, g, e.parent, missing);
    if e.parent.Some? && e.parent.value in full.ck {
      var parent := full.ck[e.parent.value];
      var left := missing - Held(full, parent, missing).Keys;
      assert left <= Missing(full, parent);
      AncestorsMonotone(full, parent.parent, left, Missing(full, parent));
    }
  }

  lemma OldNeedsStay(full: ThreadRows, e: Event, n: nat, incremental: bool, g: BlobKey -> Blob, id: Id)
    requires ParentsOlder(full) && Settled(full) && BlobsMean(full, g) && e.PutEvent?
    requires PutAdmissible(full, e, n, incremental, g)
    requires BlobsMean(Apply(full, e, incremental), g) && ParentsOlder(Apply(full, e, incremental))
    requires id in full.ck
    ensures NeededBy(Apply(full, e, incremental), id) == NeededBy(full, id)
  {
    assert id < e.id;
    OldValuesStay(full, e, incremental, g, id);
    OldAncestorsStay(full, e, incremental, g, full.ck[id].parent, Missing(full, full.ck[id]));
  }

  lemma InheritedToo(full: ThreadRows, trimmed: ThreadRows, n: nat, g: BlobKey -> Blob, e: Event, incremental: bool)
    requires Retains(full, trimmed, n, g) && e.PutEvent?
    requires PutAdmissible(full, e, n, incremental, g)
    ensures incremental ==> forall ch :: ch in e.cp.versions ==>
               || (ch in e.newVersions && e.newVersions[ch] == e.cp.versions[ch])
               || Inherited(trimmed, Newest(full.ck.Keys, n), ch, e.cp.versions[ch])
  {
  }

  lemma PutCovers(full: ThreadRows, kept: set<Id>, n: nat, g: BlobKey -> Blob, e: Event, incremental: bool)
    requires n > 0 && ParentsOlder(full) && Sound(full, g) && Covers(full, kept, n) && e.PutEvent?
    requires PutAdmissible(full, e, n, incremental, g)
    requires BlobsMean(Apply(full, e, incremental), g) && ParentsOlder(Apply(full, e, incremental))
    ensures Covers(Apply(full, e, incremental), kept + {e.id}, n)
  {
    var full' := Apply(full, e, incremental);
    assert full'.ck.Keys == full.ck.Keys + {e.id};
    NewestAfterPut(full.ck.Keys, e.id, n);
    forall id | id in Newest(full'.ck.Keys, n) ensures NeededBy(full', id) <= kept + {e.id} {
      if id == e.id {
        NewNeeds(full, e, n, incremental, g);
      } else {
        OldNeedsStay(full, e, n, incremental, g, id);
      }
    }
  }

  lemma PutIsSound(full: ThreadRows, trimmed: ThreadRows, n: nat, g: BlobKey -> Blob, e: Event, incremental: bool)
    requires Retains(full, trimmed, n, g) && e.PutEvent?
    requires PutAdmissible(full, e, n, incremental, g)
    ensures Sound(Apply(full, e, incremental), g) && Sound(Apply(trimmed, e, incremental), g)
  {
    var window := Newest(full.ck.Keys, n);
    PutSettles(full, window, e, incremental, g);
    InheritedToo(full, trimmed, n, g, e, incremental);
    PutSettles(trimmed, window, e, incremental, g);
  }

  lemma PutPreserves(full: ThreadRows, trimmed: ThreadRows, n: nat, g: BlobKey -> Blob, e: Event, incremental: bool)
    requires n > 0 && Retains(full, trimmed, n, g) && e.PutEvent?
    requires PutAdmissible(full, e, n, incremental, g)
    ensures Retains(Apply(full, e, incremental), Apply(trimmed, e, incremental), n, g)
  {
    PutIsSound(full, trimmed, n, g, e, incremental);
    PutCovers(full, trimmed.ck.Keys, n, g, e, incremental);
    assert Apply(trimmed, e, incremental).ck.Keys == trimmed.ck.Keys + {e.id};
    EventMirrors(full, trimmed, e, incremental);
  }

  lemma EventPreserves(full: ThreadRows, trimmed: ThreadRows, n: nat, g: BlobKey -> Blob, e: Event, incremental: bool)
    requires n > 0 && Retains(full, trimmed, n, g) && Admissible(full, e, n, incremental, g)
    ensures Retains(Apply(full, e, incremental), Apply(trimmed, e, incremental), n, g)
  {
    if e.PutEvent? {
      PutPreserves(full, trimmed, n, g, e, incremental);
    } else {
      WritesPreserve(full, trimmed, n, g, e, incremental);
    }
  }

  // ----------------------------------------------------------------- whole runs

  /** The thread of a saver without a limit. */
  function FullRun(events: seq<Event>, incremental: bool): ThreadRows {
    if events == [] then EMPTY
    else Apply(FullRun(events[..|events| - 1], incremental), events[|events| - 1], incremental)
  }

  /** The thread of a saver with limit `n` that trims after each event whose flag is set. */
  ghost function TrimmedRun(events: seq<Event>, trims: seq<bool>, n: nat, incremental: bool, indexed: bool): (r: ThreadRows)
    requires |trims| == |events| && forall e :: e in events ==> ParentIsOlder(e)
    ensures ParentsOlder(r)
  {
    if events == [] then EMPTY
    else
      var last := |events| - 1;
      var before := TrimmedRun(events[..last], trims[..last], n, incremental, indexed);
      assert ParentIsOlder(events[last]);
      var after := Apply(before, events[last], incremental);
      if trims[last] then Trim(after, n, incremental, indexed) else after
  }

  ghost predicate AdmissibleRun(events: seq<Event>, n: nat, incremental: bool, g: BlobKey -> Blob) {
    forall i :: 0 <= i < |events| ==> Admissible(FullRun(events[..i], incremental), events[i], n, incremental, g)
  }

  lemma {:induction false} RunRetains(events: seq<Event>, trims: seq<bool>, n: nat, incremental: bool, indexed: bool,
                                      g: BlobKey -> Blob)
    requires n > 0 && |trims| == |events| && AdmissibleRun(events, n, incremental, g)
    ensures forall e :: e in events ==> ParentIsOlder(e)
    ensures Retains(FullRun(events, incremental), TrimmedRun(events, trims, n, incremental, indexed), n, g)
  {
    RunParentsOlder(events, n, incremental, g);
    if events != [] {
      var last := |events| - 1;
      var before := events[..last];
      forall i | 0 <= i < |before|
        ensures Admissible(FullRun(before[..i], incremental), before[i], n, incremental, g)
      {
        assert before[..i] == events[..i];
      }
      RunRetains(before, trims[..last], n, incremental, indexed, g);
      var full := FullRun(before, incremental);
      var trimmed := TrimmedRun(before, trims[..last], n, incremental, indexed);
      EventPreserves(full, trimmed, n, g, events[last], incremental);
      if trims[last] {
        TrimPreserves(Apply(full, events[last], incremental), Apply(trimmed, events[last], incremental),
                      n, g, incremental, indexed);
      }
    }
  }

  lemma RunParentsOlder(events: seq<Event>, n: nat, incremental: bool, g: BlobKey -> Blob)
    requires AdmissibleRun(events, n, incremental, g)
    ensures forall e :: e in events ==> ParentIsOlder(e)
  {
    forall i | 0 <= i < |events| ensures ParentIsOlder(events[i]) {
      assert Admissible(FullRun(events[..i], incremental), events[i], n, incremental, g);
    }
  }

  /** Retention loses nothing a resume needs: after any admissible run, trimmed at any
      moments, every checkpoint among the newest `n` loads the same tuple with and
      without the limit, and every delta channel it does not hold itself replays the
      same history. */
  lemma RetentionLosesNothing(events: seq<Event>, trims: seq<bool>, n: nat, incremental: bool, indexed: bool,
                              g: BlobKey -> Blob, id: Id)
    requires n > 0 && |trims| == |events| && AdmissibleRun(events, n, incremental, g)
    requires id in Newest(FullRun(events, incremental).ck.Keys, n)
    ensures forall e :: e in events ==> ParentIsOlder(e)
    ensures ParentsOlder(FullRun(events, incremental))
    ensures var full := FullRun(events, incremental);
            var trimmed := TrimmedRun(events, trims, n, incremental, indexed);
            && GetTuple(trimmed, id, incremental) == GetTuple(full, id, incremental)
            && GetTuple(trimmed, id, incremental).Some?
            && forall ch :: ch in full.ck[id].md.delta && ch !in AllValues(full, full.ck[id]) ==>
                 Walk(trimmed, full.ck[id].parent, ch) == Walk(full, full.ck[id].parent, ch)
  {
    RunRetains(events, trims, n, incremental, indexed, g);
    WindowReadsTheSame(FullRun(events, incremental), TrimmedRun(events, trims, n, incremental, indexed),
                       n, g, id, incremental);
  }

  // --------------------------------------------------------- LangGraph's own runs

  /** An ordinary put: a new id on top of the newest checkpoint, metadata that name the same
      delta channels as ever; in incremental storage, every version is new or the parent's. */
  ghost predicate OrdinaryPut(full: ThreadRows, e: Event, delta: set<Channel>, incremental: bool, g: BlobKey -> Blob)
    requires e.PutEvent?
  {
    && (forall id :: id in full.ck ==> id < e.id)
    && e.parent == IndexedLatest(full)
    && e.md.delta == delta
    && (!incremental ==> e.cp.values.Some?)
    && (incremental ==> forall ch :: ch in e.newVersions ==> BlobOf(e.cp, ch) == g((ch, e.newVersions[ch])))
    && (incremental ==> forall ch :: ch in e.cp.versions ==>
          || (ch in e.newVersions && e.newVersions[ch] == e.cp.versions[ch])
          || CarriedOver(full, ch, e.cp.versions[ch]))
  }

  predicate CarriedOver(full: ThreadRows, ch: Channel, ver: Version) {
    full.ck != map[] &&
    var versions := full.ck[MaxId(full.ck.Keys)].cp.versions;
    ch in versions && versions[ch] == ver
  }

  ghost predicate OrdinaryRun(events: seq<Event>, delta: set<Channel>, incremental: bool, g: BlobKey -> Blob) {
    forall i :: 0 <= i < |events| && events[i].PutEvent? ==>
      OrdinaryPut(FullRun(events[..i], incremental), events[i], delta, incremental, g)
  }

  /** What an ordinary run stores. */
  ghost predicate Uniform(full: ThreadRows, delta: set<Channel>, incremental: bool) {
    forall id :: id in full.ck ==> full.ck[id].md.delta == delta && (incremental ==> full.ck[id].cp.values.None?)
  }

  lemma {:induction false} OrdinaryRunIsUniform(events: seq<Event>, delta: set<Channel>, incremental: bool, g: BlobKey -> Blob)
    requires OrdinaryRun(events, delta, incremental, g)
    ensures Uniform(FullRun(events, incremental), delta, incremental)
    decreases |events|
  {
    if events != [] {
      var n := |events| - 1;
      forall i | 0 <= i < n ensures events[..n][..i] == events[..i] {
      }
      OrdinaryRunIsUniform(events[..n], delta, incremental, g);
    }
  }

  lemma MaxInWindow(s: set<Id>, n: nat)
    requires s != {} && n > 0
    ensures MaxId(s) in Newest(s, n)
  {
  }

  lemma OrdinaryIsAdmissible(full: ThreadRows, e: Event, n: nat, delta: set<Channel>, incremental: bool, g: BlobKey -> Blob)
    requires n > 0 && e.PutEvent? && Uniform(full, delta, incremental) && OrdinaryPut(full, e, delta, incremental, g)
    ensures PutAdmissible(full, e, n, incremental, g)
  {
    if full.ck != map[] {
      var q := MaxId(full.ck.Keys);
      MaxInWindow(full.ck.Keys, n);
      forall ch | incremental && ch in e.cp.versions && CarriedOver(full, ch, e.cp.versions[ch])
        ensures Inherited(full, Newest(full.ck.Keys, n), ch, e.cp.versions[ch])
      {
        assert q in full.ck && full.ck[q].cp.values.None?;
      }
    }
  }

  /** Retention loses nothing a resume needs, for every run in which each put goes on top
      of the newest checkpoint and all metadata name the same delta channels. */
  lemma OrdinaryRunLosesNothing(events: seq<Event>, trims: seq<bool>, n: nat, delta: set<Channel>, incremental: bool,
                                indexed: bool, g: BlobKey -> Blob, id: Id)
    requires n > 0 && |trims| == |events| && OrdinaryRun(events, delta, incremental, g)
    requires id in Newest(FullRun(events, incremental).ck.Keys, n)
    ensures forall e :: e in events ==> ParentIsOlder(e)
    ensures ParentsOlder(FullRun(events, incremental))
    ensures var full := FullRun(events, incremental);
            var trimmed := TrimmedRun(events, trims, n, incremental, indexed);
            && GetTuple(trimmed, id, incremental) == GetTuple(full, id, incremental)
            && GetTuple(trimmed, id, incremental).Some?
            && forall ch :: ch in delta && ch !in AllValues(full, full.ck[id]) ==>
                 Walk(trimmed, full.ck[id].parent, ch) == Walk(full, full.ck[id].parent, ch)
  {
    forall i | 0 <= i < |events| ensures Admissible(FullRun(events[..i], incremental), events[i], n, incremental, g) {
      if events[i].PutEvent? {
        forall j | 0 <= j < i ensures events[..i][..j] == events[..j] {
        }
        OrdinaryRunIsUniform(events[..i], delta, incremental, g);
        OrdinaryIsAdmissible(FullRun(events[..i], incremental), events[i], n, delta, incremental, g);
      }
    }
    OrdinaryRunIsUniform(events, delta, incremental, g);
    RetentionLosesNothing(events, trims, n, incremental, indexed, g, id);
  }
}
