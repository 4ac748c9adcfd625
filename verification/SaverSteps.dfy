/** The saver's methods are steps of the world of `LatestPointer`: run on a store that savers
    share, they keep its invariant, and so a saver's answer to "which checkpoint is the
    latest" is the greatest stored id. */
module SaverSteps {
  import opened CheckpointRows
  import opened Ids
  import opened LatestPointer
  import opened RowLaws
  import opened Saver
  import opened Wrappers

  /** Saver number `who` of the world `w`, over a store without an index on the ids. */
  ghost predicate Sees(s: SwarmStateSaver, who: nat, w: World)
    reads s, s.store
  {
    !s.store.indexesMaxKey && w.places == s.store.places && HintsOf(w, who) == s.maxSeen
  }

  /** The world after one of its savers changed the store and its own hints. */
  ghost function Changed(w: World, places: Places, who: nat, hints: map<Place, Id>, ever: map<Place, nat>): World {
    World(places, w.hints[who := hints], ever, w.snapshots)
  }

  lemma OwnHintsMay(w: World, places: Places, who: nat, hints: map<Place, Id>, ever: map<Place, nat>, p: Place,
                    id: Option<Id>)
    requires HintsMay(HintsOf(w, who), hints, p, id)
    ensures AllHintsMay(w, Changed(w, places, who, hints, ever), who, p, id)
  {
  }

  lemma HintsOnlyShrink(w: World, places: Places, who: nat, hints: map<Place, Id>, ever: map<Place, nat>, p: Place)
    requires HintsMay(HintsOf(w, who), hints, p, None)
    ensures AllHintsMay(w, Changed(w, places, who, hints, ever), 0, p, None)
  {
  }

  lemma RowsBecome(before: Places, after: Places, p: Place, rows: ThreadRows)
    requires RowsAt(after, p) == rows && forall q :: q != p ==> RowsAt(after, q) == RowsAt(before, q)
    ensures Becomes(before, after, p, rows)
  {
  }

  /** Which put a change of the store was, by what it left of the thread. */
  lemma PutIsNext(w: World, who: nat, p: Place, id: Id, cp: Checkpoint, md: Metadata, parent: Option<Id>,
                  newVersions: map<Channel, Version>, incremental: bool, trimTo: Option<nat>,
                  places: Places, hints: map<Place, Id>)
    requires Bound(w, p) <= id && (parent.Some? ==> parent.value < id)
    requires HintsMay(HintsOf(w, who), hints, p, Some(id))
    requires var stored := CheckpointRows.Put(RowsAt(w.places, p), id, cp, md, parent, newVersions, incremental,
                                              Publishes(HintsOf(w, who), p, id));
             && ParentsOlder(stored)
             && Becomes(w.places, places, p,
                        if trimTo.Some? then Trim(stored, trimTo.value, incremental, false) else stored)
    ensures Next(w, PutBy(who, p, id, cp, md, parent, newVersions, incremental, trimTo),
                 Changed(w, places, who, hints, w.ever[p := id + 1]))
  {
    OwnHintsMay(w, places, who, hints, w.ever[p := id + 1], p, Some(id));
  }

  /** A put of an id no smaller than any bound so far. */
  method Put(s: SwarmStateSaver, ghost who: nat, ghost w: World, p: Place, id: Id, cp: Checkpoint, md: Metadata,
             parent: Option<Id>, newVersions: map<Channel, Version>)
      returns (ghost trimTo: Option<nat>, ghost w': World)
    requires Sees(s, who, w) && WorldOk(w) && Bound(w, p) <= id && (parent.Some? ==> parent.value < id)
    modifies s, s.store
    ensures Next(w, PutBy(who, p, id, cp, md, parent, newVersions, s.incremental, trimTo), w')
    ensures Sees(s, who, w') && WorldOk(w')
  {
    RowsAtOk(w, p);
    trimTo := StoreAndTrim(s, p, id, cp, md, parent, newVersions);
    w' := Changed(w, s.store.places, who, s.maxSeen, w.ever[p := id + 1]);
    PutIsNext(w, who, p, id, cp, md, parent, newVersions, s.incremental, trimTo, s.store.places, s.maxSeen);
    StepKeepsWorldOk(w, PutBy(who, p, id, cp, md, parent, newVersions, s.incremental, trimTo), w');
  }

  /** `put`, and whether it trimmed. */
  method StoreAndTrim(s: SwarmStateSaver, p: Place, id: Id, cp: Checkpoint, md: Metadata, parent: Option<Id>,
                      newVersions: map<Channel, Version>)
      returns (ghost trimTo: Option<nat>)
    requires ParentsOlder(s.Rows(p)) && (parent.Some? ==> parent.value < id) && !s.store.indexesMaxKey
    modifies s, s.store
    ensures HintsMay(old(s.maxSeen), s.maxSeen, p, Some(id))
    ensures var stored := CheckpointRows.Put(old(s.Rows(p)), id, cp, md, parent, newVersions, s.incremental,
                                             Publishes(old(s.maxSeen), p, id));
            && ParentsOlder(stored)
            && Becomes(old(s.store.places), s.store.places, p,
                       if trimTo.Some? then Trim(stored, trimTo.value, s.incremental, false) else stored)
  {
    ghost var before := s.store.places;
    ghost var floors := s.pruneFloor;
    ghost var stored := s.PutCheckpoint(p, id, cp, md, parent, newVersions);
    trimTo := if s.limit.Some? && GrownTooFar(|stored.ck|, s.limit.value, SwarmStateSaver.FloorOf(floors, p))
              then s.limit else None;
    forall q | q != p ensures RowsAt(s.store.places, q) == RowsAt(before, q) {
      assert s.Rows(q) == RowsAt(s.store.places, q);
    }
    RowsBecome(before, s.store.places, p, s.Rows(p));
  }

  /** `_trim`, as `prune` calls it. */
  method Prune(s: SwarmStateSaver, ghost who: nat, ghost w: World, p: Place, keep: Keep) returns (ghost w': World)
    requires Sees(s, who, w) && WorldOk(w)
    modifies s, s.store
    ensures Next(w, PruneTo(p, keep, s.incremental), w') && Sees(s, who, w') && WorldOk(w')
  {
    RowsAtOk(w, p);
    var count := s.TrimThread(p, keep);
    w' := Changed(w, s.store.places, who, s.maxSeen, w.ever);
    HintsOnlyShrink(w, s.store.places, who, s.maxSeen, w.ever, p);
    StepKeepsWorldOk(w, PruneTo(p, keep, s.incremental), w');
  }

  /** `delete_for_runs`, for one thread. */
  method DeleteRunsStep(s: SwarmStateSaver, ghost who: nat, ghost w: World, p: Place, wanted: set<string>)
      returns (ghost w': World)
    requires Sees(s, who, w) && WorldOk(w)
    modifies s, s.store
    ensures Next(w, DeleteRunsIn(p, wanted, s.incremental), w') && Sees(s, who, w') && WorldOk(w')
  {
    s.DeleteRunsAt(p, wanted);
    w' := Changed(w, s.store.places, who, s.maxSeen, w.ever);
    HintsOnlyShrink(w, s.store.places, who, s.maxSeen, w.ever, p);
    StepKeepsWorldOk(w, DeleteRunsIn(p, wanted, s.incremental), w');
  }

  /** `delete_thread`. */
  method Delete(s: SwarmStateSaver, ghost who: nat, ghost w: World, thread: string) returns (ghost w': World)
    requires Sees(s, who, w) && WorldOk(w)
    modifies s, s.store
    ensures Next(w, DeleteThread(thread), w') && Sees(s, who, w') && WorldOk(w')
  {
    s.DeleteThread(thread);
    forall p ensures RowsAt(s.store.places, p) == if p.thread == thread then EMPTY else RowsAt(w.places, p) {
      assert s.Rows(p) == RowsAt(s.store.places, p);
    }
    w' := Changed(w, s.store.places, who, s.maxSeen, w.ever);
    HintsOnlyShrink(w, s.store.places, who, s.maxSeen, w.ever, Place(thread, ""));
    StepKeepsWorldOk(w, DeleteThread(thread), w');
  }

  /** `copy_thread`, for one checkpoint namespace. */
  method CopyStep(s: SwarmStateSaver, ghost who: nat, ghost w: World, source: Place, target: Place)
      returns (ghost w': World)
    requires Sees(s, who, w) && WorldOk(w)
    modifies s, s.store
    ensures Next(w, Copy(who, source, target), w') && Sees(s, who, w') && WorldOk(w')
  {
    ghost var above, bound := Above(RowsAt(w.places, source)), Bound(w, target);
    ghost var ever := w.ever[target := if above > bound then above else bound];
    s.CopyNamespace(source, target);
    w' := Changed(w, s.store.places, who, s.maxSeen, ever);
    OwnHintsMay(w, s.store.places, who, s.maxSeen, ever, target, IndexedLatest(RowsAt(s.store.places, target)));
    StepKeepsWorldOk(w, Copy(who, source, target), w');
  }

  /** `_resolve` without an id: whatever puts, prunes, deletions, copies and restores came
      before, by whichever savers, the answer is the greatest stored id. */
  method Latest(s: SwarmStateSaver, ghost who: nat, ghost w: World, p: Place)
      returns (found: Option<Id>, ghost w': World)
    requires Sees(s, who, w) && WorldOk(w)
    modifies s.store
    ensures found == IndexedLatest(old(s.Rows(p)))
    ensures Next(w, LatestPointer.Resolve(p), w') && Sees(s, who, w') && WorldOk(w')
  {
    RowsAtOk(w, p);
    PointerAnswersMax(s.Rows(p));
    found := s.Resolve(p, None);
    w' := w.(places := s.store.places);
    forall q | q != p ensures RowsAt(s.store.places, q) == RowsAt(w.places, q) {
      assert s.Rows(q) == RowsAt(s.store.places, q);
    }
    RowsBecome(w.places, s.store.places, p, s.Rows(p));
    StepKeepsWorldOk(w, LatestPointer.Resolve(p), w');
  }
}
