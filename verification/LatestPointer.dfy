/** Which checkpoint is the latest one.

    A thread's latest checkpoint is answered from a pointer row that any saver may
    have written, any restore may have rolled back and any deletion may have left
    dangling. As long as new ids exceed every id the thread has ever had, the answer
    is the greatest stored id, exactly what an index on the ids would say. */
module LatestPointer {
  import opened Wrappers
  import opened Ids
  import opened CheckpointRows
  import opened WriteKeys

  datatype Place = Place(thread: string, ns: string)

  type Places = map<Place, ThreadRows>

  function RowsAt(places: Places, p: Place): ThreadRows {
    if p in places then places[p] else EMPTY
  }

  /** A shared store, the savers writing to it and the snapshots taken of it. */
  datatype World = World(
    places: Places,
    hints: map<nat, map<Place, Id>>,  // each saver's `_max_seen`
    ever: map<Place, nat>,            // one above the largest id ever put or copied there
    snapshots: seq<Places>)

  function Bound(w: World, p: Place): nat {
    if p in w.ever then w.ever[p] else 0
  }

  function HintsOf(w: World, saver: nat): map<Place, Id> {
    if saver in w.hints then w.hints[saver] else map[]
  }

  /** One above every stored id. */
  function Above(t: ThreadRows): (b: nat)
    ensures forall id :: id in t.ck ==> id < b
  {
    if t.ck == map[] then 0 else MaxId(t.ck.Keys) + 1
  }

  /** `_put_rows`: whether this put writes the pointer. */
  function Publishes(hints: map<Place, Id>, p: Place, id: Id): bool {
    p !in hints || id > hints[p]
  }

  datatype Action =
    | PutBy(saver: nat, place: Place, id: Id, cp: Checkpoint, md: Metadata, parent: Option<Id>,
            newVersions: map<Channel, Version>, incremental: bool, trimTo: Option<nat>)
    | PruneTo(place: Place, keep: nat, incremental: bool)
    | DeleteRunsIn(place: Place, wanted: set<string>, incremental: bool)
    | DeleteThread(thread: string)
    | Copy(saver: nat, source: Place, target: Place)
    | Resolve(place: Place)
    | TakeSnapshot
    | Restore(k: nat)

  /** Hints may be forgotten at any time (the dictionaries are bounded, and a drop that
      moves the pointer pops one), and gain at most `id` at `p`. */
  ghost predicate HintsMay(before: map<Place, Id>, after: map<Place, Id>, p: Place, id: Option<Id>) {
    forall q :: q in after ==> (q in before && after[q] == before[q]) || (q == p && id == Some(after[q]))
  }

  /** Each saver's hints only shrink, except that `saver` may gain `id` at `p`. */
  ghost predicate AllHintsMay(w: World, w': World, saver: nat, p: Place, id: Option<Id>) {
    forall s :: s in w'.hints ==> HintsMay(HintsOf(w, s), w'.hints[s], p, if s == saver then id else None)
  }

  /** The rows at `p` become `rows`; those of every other place stay. */
  ghost predicate Becomes(before: Places, after: Places, p: Place, rows: ThreadRows) {
    forall q :: RowsAt(after, q) == if q == p then rows else RowsAt(before, q)
  }

  ghost predicate Next(w: World, a: Action, w': World) {
    match a
    case PutBy(saver, p, id, cp, md, parent, newVersions, incremental, trimTo) =>
      var stored := Put(RowsAt(w.places, p), id, cp, md, parent, newVersions, incremental,
                        Publishes(HintsOf(w, saver), p, id));
      && Bound(w, p) <= id
      && (parent.Some? ==> parent.value < id)
      && ParentsOlder(stored)
      && Becomes(w.places, w'.places, p, if trimTo.Some? then Trim(stored, trimTo.value, incremental, false) else stored)
      && AllHintsMay(w, w', saver, p, Some(id))
      && w'.ever == w.ever[p := id + 1]
      && w'.snapshots == w.snapshots
    case PruneTo(p, keep, incremental) =>
      && ParentsOlder(RowsAt(w.places, p))
      && Becomes(w.places, w'.places, p, Trim(RowsAt(w.places, p), keep, incremental, false))
      && AllHintsMay(w, w', 0, p, None)
      && w'.ever == w.ever
      && w'.snapshots == w.snapshots
    case DeleteRunsIn(p, wanted, incremental) =>
      && Becomes(w.places, w'.places, p, DeleteRuns(RowsAt(w.places, p), wanted, incremental, false))
      && AllHintsMay(w, w', 0, p, None)
      && w'.ever == w.ever
      && w'.snapshots == w.snapshots
    case DeleteThread(thread) =>
      && (forall p :: RowsAt(w'.places, p) == if p.thread == thread then EMPTY else RowsAt(w.places, p))
      && AllHintsMay(w, w', 0, Place(thread, ""), None)
      && w'.ever == w.ever
      && w'.snapshots == w.snapshots
    case Copy(saver, source, target) =>
      var copied := CopyInto(RowsAt(w.places, source), RowsAt(w.places, target), source.thread, target.thread, false);
      && Becomes(w.places, w'.places, target, copied)
      && AllHintsMay(w, w', saver, target, IndexedLatest(copied))
      && w'.ever == w.ever[target := if Above(RowsAt(w.places, source)) > Bound(w, target)
                                      then Above(RowsAt(w.places, source)) else Bound(w, target)]
      && w'.snapshots == w.snapshots
    case Resolve(p) =>
      && Becomes(w.places, w'.places, p, AfterResolve(RowsAt(w.places, p)))
      && w'.hints == w.hints && w'.ever == w.ever && w'.snapshots == w.snapshots
    case TakeSnapshot =>
      w' == w.(snapshots := w.snapshots + [w.places])
    case Restore(k) =>
      k < |w.snapshots| && w' == w.(places := w.snapshots[k])
  }

  // ------------------------------------------------------------------ invariants

  /** A pointer to a stored checkpoint points to the newest. */
  ghost predicate PointerOk(t: ThreadRows) {
    t.latest.Some? && t.latest.value in t.ck ==> t.latest.value == MaxId(t.ck.Keys)
  }

  ghost predicate RowsOk(t: ThreadRows, bound: nat) {
    && PointerOk(t)
    && ParentsOlder(t)
    && (forall id :: id in t.ck ==> id < bound)
  }

  ghost predicate PlacesOk(places: Places, w: World) {
    forall p :: RowsOk(RowsAt(places, p), Bound(w, p))
  }

  ghost predicate HintsOk(hints: map<Place, Id>, w: World) {
    forall p :: p in hints ==> hints[p] < Bound(w, p)
  }

  ghost predicate WorldOk(w: World) {
    && PlacesOk(w.places, w)
    && (forall i :: 0 <= i < |w.snapshots| ==> PlacesOk(w.snapshots[i], w))
    && (forall s :: s in w.hints ==> HintsOk(w.hints[s], w))
  }

  lemma PointerAnswersMax(t: ThreadRows)
    requires PointerOk(t)
    ensures PointedLatest(t) == IndexedLatest(t)
  {
  }

  lemma MaxOfSubset(some: set<Id>, all: set<Id>)
    requires some != {} && some <= all && MaxId(all) in some
    ensures MaxId(some) == MaxId(all)
  {
  }

  lemma DropKeepsPointer(t: ThreadRows, doomed: set<Id>, kept: set<Id>, incremental: bool, bound: nat)
    requires RowsOk(t, bound) && kept <= t.ck.Keys && doomed == t.ck.Keys - kept
    ensures RowsOk(Drop(t, doomed, kept, incremental, false), bound)
  {
    var after := Drop(t, doomed, kept, incremental, false);
    assert after.ck.Keys == kept;
    if after.latest.Some? && after.latest.value in after.ck {
      if t.latest.Some? && t.latest.value in doomed {
        assert after.latest.value == MaxId(kept);
      } else {
        MaxOfSubset(kept, t.ck.Keys);
      }
    }
  }

  lemma TrimKeepsPointer(t: ThreadRows, keep: nat, incremental: bool, bound: nat)
    requires RowsOk(t, bound)
    ensures RowsOk(Trim(t, keep, incremental, false), bound)
  {
    var kept := TrimKeeps(t, keep);
    TrimKeepsStored(t, keep);
    if t.ck.Keys - kept != {} {
      DropKeepsPointer(t, t.ck.Keys - kept, kept, incremental, bound);
    }
  }

  lemma TrimKeepsStored(t: ThreadRows, keep: nat)
    requires ParentsOlder(t)
    ensures TrimKeeps(t, keep) <= t.ck.Keys
  {
    forall s | s in Newest(t.ck.Keys, keep) ensures NeededBy(t, s) <= t.ck.Keys {
      AncestorsAreStored(t, t.ck[s].parent, Missing(t, t.ck[s]));
    }
  }

  lemma {:induction false} AncestorsAreStored(t: ThreadRows, cursor: Option<Id>, missing: set<Channel>)
    requires ParentsOlder(t)
    ensures Ancestors(t, cursor, missing) <= t.ck.Keys
    decreases Height(cursor)
  {
    if !(missing == {} || cursor.None? || cursor.value !in t.ck) {
      var saved := t.ck[cursor.value];
      AncestorsAreStored(t, saved.parent, missing - Held(t, saved, missing).Keys);
    }
  }

  /** A put of an unused id by a saver whose hint is not ahead of it. */
  lemma PutKeepsPointer(t: ThreadRows, id: Id, cp: Checkpoint, md: Metadata, parent: Option<Id>,
                        newVersions: map<Channel, Version>, incremental: bool, bound: nat)
    requires RowsOk(t, bound) && bound <= id && (parent.Some? ==> parent.value < id)
    ensures RowsOk(Put(t, id, cp, md, parent, newVersions, incremental, true), id + 1)
  {
    var after := Put(t, id, cp, md, parent, newVersions, incremental, true);
    assert forall x :: x in after.ck ==> x <= id;
  }

  lemma CopyKeepsPointer(src: ThreadRows, dst: ThreadRows, source: string, target: string, b1: nat, b2: nat)
    requires RowsOk(src, b1) && RowsOk(dst, b2)
    ensures RowsOk(CopyInto(src, dst, source, target, false), if b1 > b2 then b1 else b2)
  {
  }

  lemma RowsOkWider(t: ThreadRows, b1: nat, b2: nat)
    requires RowsOk(t, b1) && b1 <= b2
    ensures RowsOk(t, b2)
  {
  }

  ghost predicate Grows(w: World, w': World) {
    forall p :: Bound(w, p) <= Bound(w', p)
  }

  /** What stays put while ids may grow. */
  lemma WiderWorld(places: Places, w: World, w': World)
    requires PlacesOk(places, w) && Grows(w, w')
    ensures PlacesOk(places, w')
  {
    forall p ensures RowsOk(RowsAt(places, p), Bound(w', p)) {
      RowsOkWider(RowsAt(places, p), Bound(w, p), Bound(w', p));
    }
  }

  lemma SnapshotsStayOk(w: World, w': World)
    requires WorldOk(w) && Grows(w, w') && w'.snapshots == w.snapshots
    ensures forall i :: 0 <= i < |w'.snapshots| ==> PlacesOk(w'.snapshots[i], w')
  {
    forall i | 0 <= i < |w.snapshots| ensures PlacesOk(w.snapshots[i], w') {
      WiderWorld(w.snapshots[i], w, w');
    }
  }

  lemma OnePlace(w: World, w': World, p: Place, rows: ThreadRows)
    requires WorldOk(w) && Grows(w, w') && Becomes(w.places, w'.places, p, rows) && RowsOk(rows, Bound(w', p))
    ensures PlacesOk(w'.places, w')
  {
    forall q ensures RowsOk(RowsAt(w'.places, q), Bound(w', q)) {
      if q != p {
        RowsOkWider(RowsAt(w.places, q), Bound(w, q), Bound(w', q));
      }
    }
  }

  lemma HintsStayOk(w: World, w': World, saver: nat, p: Place, id: Option<Id>)
    requires WorldOk(w) && AllHintsMay(w, w', saver, p, id) && Grows(w, w')
    requires id.Some? ==> id.value < Bound(w', p)
    ensures forall s :: s in w'.hints ==> HintsOk(w'.hints[s], w')
  {
    forall s | s in w'.hints ensures HintsOk(w'.hints[s], w') {
      forall q | q in w'.hints[s] ensures w'.hints[s][q] < Bound(w', q) {
        if q in HintsOf(w, s) && w'.hints[s][q] == HintsOf(w, s)[q] {
          assert HintsOk(w.hints[s], w);
        }
      }
    }
  }

  lemma SameHints(w: World, w': World)
    requires WorldOk(w) && w'.ever == w.ever && w'.hints == w.hints
    ensures forall s :: s in w'.hints ==> HintsOk(w'.hints[s], w')
  {
    forall s | s in w'.hints ensures HintsOk(w'.hints[s], w') {
      assert HintsOk(w.hints[s], w);
    }
  }

  lemma RowsAtOk(w: World, p: Place)
    requires WorldOk(w)
    ensures RowsOk(RowsAt(w.places, p), Bound(w, p))
  {
  }

  // ------------------------------------------------------------- step by step

  /** One place changes, no id comes in: as well as hints, only its rows have to be looked at. */
  lemma ChangeKeepsWorldOk(w: World, w': World, saver: nat, p: Place, rows: ThreadRows, id: Option<Id>)
    requires WorldOk(w) && Grows(w, w') && w'.snapshots == w.snapshots
    requires Becomes(w.places, w'.places, p, rows) && RowsOk(rows, Bound(w', p))
    requires AllHintsMay(w, w', saver, p, id) && (id.Some? ==> id.value < Bound(w', p))
    ensures WorldOk(w')
  {
    OnePlace(w, w', p, rows);
    SnapshotsStayOk(w, w');
    HintsStayOk(w, w', saver, p, id);
  }

  lemma HintIsOld(w: World, saver: nat, p: Place, id: Id)
    requires WorldOk(w) && Bound(w, p) <= id
    ensures Publishes(HintsOf(w, saver), p, id)
  {
    if p in HintsOf(w, saver) {
      assert HintsOk(w.hints[saver], w);
    }
  }

  lemma PutKeepsWorldOk(w: World, a: Action, w': World)
    requires WorldOk(w) && a.PutBy? && Next(w, a, w')
    ensures WorldOk(w')
  {
    var t := RowsAt(w.places, a.place);
    RowsAtOk(w, a.place);
    HintIsOld(w, a.saver, a.place, a.id);
    PutKeepsPointer(t, a.id, a.cp, a.md, a.parent, a.newVersions, a.incremental, Bound(w, a.place));
    var stored := Put(t, a.id, a.cp, a.md, a.parent, a.newVersions, a.incremental, true);
    var rows := if a.trimTo.Some? then Trim(stored, a.trimTo.value, a.incremental, false) else stored;
    if a.trimTo.Some? {
      TrimKeepsPointer(stored, a.trimTo.value, a.incremental, a.id + 1);
    }
    ChangeKeepsWorldOk(w, w', a.saver, a.place, rows, Some(a.id));
  }

  lemma PruneKeepsWorldOk(w: World, a: Action, w': World)
    requires WorldOk(w) && a.PruneTo? && Next(w, a, w')
    ensures WorldOk(w')
  {
    var t := RowsAt(w.places, a.place);
    RowsAtOk(w, a.place);
    TrimKeepsPointer(t, a.keep, a.incremental, Bound(w, a.place));
    ChangeKeepsWorldOk(w, w', 0, a.place, Trim(t, a.keep, a.incremental, false), None);
  }

  lemma DeleteRunsKeepsPointer(t: ThreadRows, wanted: set<string>, incremental: bool, bound: nat)
    requires RowsOk(t, bound)
    ensures RowsOk(DeleteRuns(t, wanted, incremental, false), bound)
  {
    var doomed := RunCheckpoints(t, wanted);
    if doomed != {} {
      assert t.ck.Keys - (t.ck.Keys - doomed) == doomed;
      DropKeepsPointer(t, doomed, t.ck.Keys - doomed, incremental, bound);
    }
  }

  lemma DeleteRunsKeepsWorldOk(w: World, a: Action, w': World)
    requires WorldOk(w) && a.DeleteRunsIn? && Next(w, a, w')
    ensures WorldOk(w')
  {
    var t := RowsAt(w.places, a.place);
    RowsAtOk(w, a.place);
    DeleteRunsKeepsPointer(t, a.wanted, a.incremental, Bound(w, a.place));
    ChangeKeepsWorldOk(w, w', 0, a.place, DeleteRuns(t, a.wanted, a.incremental, false), None);
  }

  lemma DeleteThreadKeepsWorldOk(w: World, a: Action, w': World)
    requires WorldOk(w) && a.DeleteThread? && Next(w, a, w')
    ensures WorldOk(w')
  {
    forall p ensures RowsOk(RowsAt(w'.places, p), Bound(w', p)) {
      RowsAtOk(w, p);
    }
    SnapshotsStayOk(w, w');
    HintsStayOk(w, w', 0, Place(a.thread, ""), None);
  }

  lemma CopyKeepsWorldOk(w: World, a: Action, w': World)
    requires WorldOk(w) && a.Copy? && Next(w, a, w')
    ensures WorldOk(w')
  {
    var src, dst := RowsAt(w.places, a.source), RowsAt(w.places, a.target);
    RowsAtOk(w, a.source);
    RowsAtOk(w, a.target);
    CopyKeepsPointer(src, dst, a.source.thread, a.target.thread, Above(src), Bound(w, a.target));
    var copied := CopyInto(src, dst, a.source.thread, a.target.thread, false);
    ChangeKeepsWorldOk(w, w', a.saver, a.target, copied, IndexedLatest(copied));
  }

  lemma ResolveKeepsWorldOk(w: World, a: Action, w': World)
    requires WorldOk(w) && a.Resolve? && Next(w, a, w')
    ensures WorldOk(w')
  {
    RowsAtOk(w, a.place);
    OnePlace(w, w', a.place, AfterResolve(RowsAt(w.places, a.place)));
    SnapshotsStayOk(w, w');
    SameHints(w, w');
  }

  lemma StepKeepsWorldOk(w: World, a: Action, w': World)
    requires WorldOk(w) && Next(w, a, w')
    ensures WorldOk(w')
  {
    match a {
      case PutBy(_, _, _, _, _, _, _, _, _) => PutKeepsWorldOk(w, a, w');
      case PruneTo(_, _, _) => PruneKeepsWorldOk(w, a, w');
      case DeleteRunsIn(_, _, _) => DeleteRunsKeepsWorldOk(w, a, w');
      case DeleteThread(_) => DeleteThreadKeepsWorldOk(w, a, w');
      case Copy(_, _, _) => CopyKeepsWorldOk(w, a, w');
      case Resolve(_) => ResolveKeepsWorldOk(w, a, w');
      case TakeSnapshot => SameHints(w, w');
      case Restore(k) => SameHints(w, w');
    }
  }

  // -------------------------------------------------------------------- the theorem

  ghost predicate IsRun(worlds: seq<World>, actions: seq<Action>) {
    && |worlds| == |actions| + 1
    && worlds[0] == World(map[], map[], map[], [])
    && forall i :: 0 <= i < |actions| ==> Next(worlds[i], actions[i], worlds[i + 1])
  }

  lemma {:induction false} RunKeepsWorldOk(worlds: seq<World>, actions: seq<Action>, k: nat)
    requires IsRun(worlds, actions) && k <= |actions|
    ensures WorldOk(worlds[k])
  {
    if k > 0 {
      RunKeepsWorldOk(worlds, actions, k - 1);
      StepKeepsWorldOk(worlds[k - 1], actions[k - 1], worlds[k]);
    }
  }

  /** At every moment of every run, resolving without an id gives the greatest stored
      id, none when there is none: the same answer as an index on the ids. */
  lemma LatestIsGreatest(worlds: seq<World>, actions: seq<Action>, k: nat, p: Place)
    requires IsRun(worlds, actions) && k <= |actions|
    ensures var t := RowsAt(worlds[k].places, p);
            && PointedLatest(t) == IndexedLatest(t)
            && (PointedLatest(t).None? <==> t.ck == map[])
            && (PointedLatest(t).Some? ==> PointedLatest(t).value in t.ck)
            && (forall id :: id in t.ck ==> PointedLatest(t).Some? && id <= PointedLatest(t).value)
  {
    RunKeepsWorldOk(worlds, actions, k);
    RowsAtOk(worlds[k], p);
    PointerAnswersMax(RowsAt(worlds[k].places, p));
  }

  /** For a put of any id at all, the exact condition under which the pointer route still
      finds the newest checkpoint afterwards. A saver that has no hint for the thread
      (or an old one) publishes whatever it puts, so it must not put an old id; a saver
      that does not publish must not put a new one over a live pointer. */
  lemma AnyPutKeepsLatestIff(t: ThreadRows, id: Id, cp: Checkpoint, md: Metadata, parent: Option<Id>,
                             newVersions: map<Channel, Version>, incremental: bool,
                             hints: map<Place, Id>, p: Place)
    requires PointerOk(t)
    ensures var publish := Publishes(hints, p, id);
            var after := Put(t, id, cp, md, parent, newVersions, incremental, publish);
            PointedLatest(after) == IndexedLatest(after) <==>
              (t.ck == map[] ||
               if publish || t.latest == Some(id) then MaxId(t.ck.Keys) <= id
               else t.latest.Some? && t.latest.value in t.ck ==> id <= MaxId(t.ck.Keys))
  {
    var after := Put(t, id, cp, md, parent, newVersions, incremental, Publishes(hints, p, id));
    assert after.ck.Keys == t.ck.Keys + {id};
    if t.ck != map[] {
      assert MaxId(after.ck.Keys) == if MaxId(t.ck.Keys) <= id then id else MaxId(t.ck.Keys);
    }
  }

  /** A cold saver putting an old id moves the pointer back. */
  lemma ColdSaverMovesPointerBack(t: ThreadRows, late: Id, cp: Checkpoint, md: Metadata, p: Place)
    requires PointerOk(t) && t.ck != map[] && late < MaxId(t.ck.Keys)
    ensures PointedLatest(Put(t, late, cp, md, None, map[], false, Publishes(map[], p, late))) == Some(late)
    ensures IndexedLatest(Put(t, late, cp, md, None, map[], false, Publishes(map[], p, late))) != Some(late)
  {
    var after := Put(t, late, cp, md, None, map[], false, true);
    assert MaxId(t.ck.Keys) in after.ck.Keys;
  }

  // ------------------------------------------------------------------------ copies

  /** The copied checkpoint reads no write of the target's own. */
  predicate WritesHidden(src: ThreadRows, dst: ThreadRows, id: Id) {
    WritesOf(dst, id).Keys <= WritesOf(src, id).Keys
  }

  /** And finds no blob of the target's own. */
  predicate BlobsHidden(src: ThreadRows, dst: ThreadRows, versions: map<Channel, Version>) {
    forall ch :: ch in versions && (ch, versions[ch]) in dst.bl && dst.bl[(ch, versions[ch])].Present? ==>
      (ch, versions[ch]) in src.bl
  }

  /** More stored writes are more pending writes, so laid over others the writes of a
      checkpoint read back alone only when they hide all of those. */
  lemma OverlaidCount(theirs: map<Slot, Write>, mine: map<Slot, Write>)
    requires !(theirs.Keys <= mine.Keys)
    ensures |SortedSlots((theirs + mine).Keys)| > |SortedSlots(mine.Keys)|
  {
    SortedSlotsCount((theirs + mine).Keys);
    SortedSlotsCount(mine.Keys);
    assert (theirs + mine).Keys == theirs.Keys + mine.Keys;
    MoreSlots(theirs.Keys, mine.Keys);
  }

  lemma MoreSlots(theirs: set<Slot>, mine: set<Slot>)
    requires !(theirs <= mine)
    ensures |theirs + mine| > |mine|
  {
    var more := theirs - mine;
    assert theirs + mine == mine + more;
    assert more != {};
  }

  lemma Overlaid(theirs: map<Slot, Write>, mine: map<Slot, Write>)
    requires theirs.Keys <= mine.Keys
    ensures theirs + mine == mine
  {
  }

  lemma CopiedWrites(src: ThreadRows, dst: ThreadRows, source: string, target: string, indexed: bool, id: Id)
    ensures WritesOf(CopyInto(src, dst, source, target, indexed), id) == WritesOf(dst, id) + WritesOf(src, id)
  {
    assert map[] + WritesOf(src, id) == WritesOf(src, id);
    assert WritesOf(dst, id) + map[] == WritesOf(dst, id);
  }

  lemma CopiedWritesIff(src: ThreadRows, dst: ThreadRows, source: string, target: string, indexed: bool, id: Id)
    ensures var after := CopyInto(src, dst, source, target, indexed);
            Pending(after, id) == Pending(src, id) <==> WritesHidden(src, dst, id)
  {
    CopiedWrites(src, dst, source, target, indexed, id);
    if WritesHidden(src, dst, id) {
      Overlaid(WritesOf(dst, id), WritesOf(src, id));
    } else {
      OverlaidCount(WritesOf(dst, id), WritesOf(src, id));
    }
  }

  lemma CopiedBlobsIff(src: ThreadRows, dst: ThreadRows, versions: map<Channel, Version>)
    ensures Attached(dst.bl + src.bl, versions) == Attached(src.bl, versions) <==> BlobsHidden(src, dst, versions)
  {
    var both, mine := Attached(dst.bl + src.bl, versions), Attached(src.bl, versions);
    if BlobsHidden(src, dst, versions) {
      forall ch ensures ch in both <==> ch in mine {
      }
      assert both == mine;
    } else {
      var ch :| ch in versions && (ch, versions[ch]) in dst.bl && dst.bl[(ch, versions[ch])].Present?
        && (ch, versions[ch]) !in src.bl;
      assert ch in both && ch !in mine;
    }
  }

  /** Copied into any thread, a checkpoint loads as it did in the source, but for the thread
      its metadata names, exactly when the target holds no write of its own for it, and, where
      its values are stored apart, no value of its own for one of its versions. */
  lemma CopiedTupleIff(src: ThreadRows, dst: ThreadRows, source: string, target: string, indexed: bool, id: Id,
                       incremental: bool)
    requires id in src.ck
    ensures GetTuple(CopyInto(src, dst, source, target, indexed), id, incremental)
              == Some(GetTuple(src, id, incremental).value.(metadata := Retarget(src.ck[id], source, target).md))
       <==> && WritesHidden(src, dst, id)
            && (incremental && src.ck[id].cp.values.None? ==> BlobsHidden(src, dst, src.ck[id].cp.versions))
  {
    CopiedWritesIff(src, dst, source, target, indexed, id);
    CopiedBlobsIff(src, dst, src.ck[id].cp.versions);
  }

  /** A write the target has for a checkpoint that has none in the source is read with the
      copy. */
  lemma TargetShowsThrough(src: ThreadRows, source: string, target: string, indexed: bool, id: Id, w: Write)
    requires id in src.ck && WritesOf(src, id) == map[]
    ensures var dst := EMPTY.(wr := map[id := map[Slot(w.task, 0) := w]]);
            Pending(CopyInto(src, dst, source, target, indexed), id) != Pending(src, id)
  {
    var dst := EMPTY.(wr := map[id := map[Slot(w.task, 0) := w]]);
    assert Slot(w.task, 0) in WritesOf(dst, id).Keys;
    CopiedWritesIff(src, dst, source, target, indexed, id);
  }

  /** `after` holds the checkpoints of `src`, up to metadata, with the same writes and
      values, and ends their parent chains where `src` does. */
  ghost predicate ReadsAs(src: ThreadRows, after: ThreadRows) {
    forall id :: id in src.ck ==> RowReadsAs(src, after, id)
  }

  predicate RowReadsAs(src: ThreadRows, after: ThreadRows, id: Id)
    requires id in src.ck
  {
    && id in after.ck && after.ck[id].cp == src.ck[id].cp && after.ck[id].parent == src.ck[id].parent
    && WritesOf(after, id) == WritesOf(src, id)
    && Attached(after.bl, src.ck[id].cp.versions) == Attached(src.bl, src.ck[id].cp.versions)
    && EndsAlike(src, after, src.ck[id].parent)
  }

  predicate EndsAlike(src: ThreadRows, after: ThreadRows, cursor: Option<Id>) {
    cursor.Some? && cursor.value in after.ck ==> cursor.value in src.ck
  }

  /** The target shows nothing of its own through the copy. */
  ghost predicate TargetHidden(src: ThreadRows, dst: ThreadRows) {
    forall id :: id in src.ck ==>
      && WritesHidden(src, dst, id) && BlobsHidden(src, dst, src.ck[id].cp.versions)
      && EndsAlike(src, dst, src.ck[id].parent)
  }

  lemma CopiedRow(src: ThreadRows, dst: ThreadRows, source: string, target: string, indexed: bool, id: Id)
    requires id in src.ck
    requires WritesHidden(src, dst, id) && BlobsHidden(src, dst, src.ck[id].cp.versions)
    requires EndsAlike(src, dst, src.ck[id].parent)
    ensures RowReadsAs(src, CopyInto(src, dst, source, target, indexed), id)
  {
    CopiedWrites(src, dst, source, target, indexed, id);
    Overlaid(WritesOf(dst, id), WritesOf(src, id));
    CopiedBlobsIff(src, dst, src.ck[id].cp.versions);
  }

  lemma CopiedRows(src: ThreadRows, dst: ThreadRows, source: string, target: string, indexed: bool)
    requires TargetHidden(src, dst)
    ensures ReadsAs(src, CopyInto(src, dst, source, target, indexed))
  {
    forall id | id in src.ck ensures RowReadsAs(src, CopyInto(src, dst, source, target, indexed), id) {
      CopiedRow(src, dst, source, target, indexed, id);
    }
  }

  lemma {:induction false} CopiedWalk(src: ThreadRows, after: ThreadRows, cursor: Option<Id>, ch: Channel)
    requires ParentsOlder(src) && ParentsOlder(after) && ReadsAs(src, after) && EndsAlike(src, after, cursor)
    ensures Walk(after, cursor, ch) == Walk(src, cursor, ch)
    decreases Height(cursor)
  {
    if cursor.Some? && cursor.value in src.ck {
      var id := cursor.value;
      assert RowReadsAs(src, after, id);
      assert AllValues(after, after.ck[id]) == AllValues(src, src.ck[id]);
      CopiedWalk(src, after, src.ck[id].parent, ch);
    }
  }

  lemma CopiedParents(src: ThreadRows, dst: ThreadRows, source: string, target: string, indexed: bool)
    requires ParentsOlder(src) && ParentsOlder(dst)
    ensures ParentsOlder(CopyInto(src, dst, source, target, indexed))
  {
  }

  /** Where the target shows nothing of its own, as an empty one does not, every copied
      checkpoint also replays its delta channels as in the source. */
  lemma CopyIsFaithful(src: ThreadRows, dst: ThreadRows, source: string, target: string, indexed: bool, id: Id,
                       incremental: bool)
    requires id in src.ck && ParentsOlder(src) && ParentsOlder(dst) && TargetHidden(src, dst)
    ensures var after := CopyInto(src, dst, source, target, indexed);
            && GetTuple(after, id, incremental)
                 == Some(GetTuple(src, id, incremental).value.(metadata := Retarget(src.ck[id], source, target).md))
            && ParentsOlder(after)
            && forall ch :: Walk(after, after.ck[id].parent, ch) == Walk(src, src.ck[id].parent, ch)
  {
    var after := CopyInto(src, dst, source, target, indexed);
    CopiedTupleIff(src, dst, source, target, indexed, id, incremental);
    CopiedRows(src, dst, source, target, indexed);
    CopiedParents(src, dst, source, target, indexed);
    forall ch ensures Walk(after, after.ck[id].parent, ch) == Walk(src, src.ck[id].parent, ch) {
      CopiedWalk(src, after, src.ck[id].parent, ch);
    }
  }

  lemma EmptyTargetIsHidden(src: ThreadRows)
    ensures TargetHidden(src, EMPTY) && ParentsOlder(EMPTY)
  {
  }
}
