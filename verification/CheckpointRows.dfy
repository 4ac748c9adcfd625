/** What the LangGraph saver keeps in the store for one thread, and what its
    operations do to it.

    The saver spreads a thread over four kinds of namespaces (checkpoints, pending
    writes, channel blobs, latest pointers); `ThreadRows` holds the rows of one
    `(thread_id, checkpoint_ns)` pair, already decoded by the serializer, which is
    assumed to round-trip. Every operation is given here as a function from rows to
    rows; the class `SwarmStateSaver` is proved to compute these functions. */
module CheckpointRows {
  import opened Wrappers
  import opened Ids
  import opened WriteKeys

  type Channel = string
  type Version = string
  type BlobKey = (Channel, Version)

  /** An application value, as far as the saver looks at it. */
  datatype Value = Value(payload: seq<nat>)

  datatype Checkpoint = Checkpoint(
    values: Option<map<Channel, Value>>,  // `channel_values`, absent when stored incrementally
    versions: map<Channel, Version>,      // `channel_versions`
    rest: Value)

  datatype Metadata = Metadata(
    delta: set<Channel>,                  // the keys of `counters_since_delta_snapshot`
    runId: Option<string>,
    threadId: Option<string>,
    rest: Value)

  datatype Record = Record(cp: Checkpoint, md: Metadata, parent: Option<Id>)

  datatype Blob = Present(value: Value) | Empty

  datatype Write = Write(task: string, channel: Channel, value: Value, path: string)

  datatype ThreadRows = ThreadRows(
    ck: map<Id, Record>,
    wr: map<Id, map<Slot, Write>>,
    bl: map<BlobKey, Blob>,
    latest: Option<Id>)

  const EMPTY := ThreadRows(map[], map[], map[], None)

  function WritesOf(t: ThreadRows, id: Id): map<Slot, Write> {
    if id in t.wr then t.wr[id] else map[]
  }

  /** Parents are older than their children, which is what ends every walk up a
      parent chain. */
  ghost predicate ParentsOlder(t: ThreadRows) {
    forall id :: id in t.ck && t.ck[id].parent.Some? ==> t.ck[id].parent.value < id
  }

  function Height(cursor: Option<Id>): nat {
    if cursor.Some? then cursor.value + 1 else 0
  }

  // ------------------------------------------------------------ channel values

  /** `_attach_values`: the values behind every `(channel, version)` blob. */
  function Attached(bl: map<BlobKey, Blob>, versions: map<Channel, Version>): map<Channel, Value> {
    map ch | ch in versions && (ch, versions[ch]) in bl && bl[(ch, versions[ch])].Present?
      :: bl[(ch, versions[ch])].value
  }

  /** Everything a stored checkpoint holds a value for. */
  function AllValues(t: ThreadRows, saved: Record): map<Channel, Value> {
    if saved.cp.values.Some? then saved.cp.values.value else Attached(t.bl, saved.cp.versions)
  }

  /** `_channel_values`: the values `saved` holds for `channels`. */
  function Held(t: ThreadRows, saved: Record, channels: set<Channel>): (r: map<Channel, Value>)
    ensures r.Keys == channels * AllValues(t, saved).Keys
  {
    var all := AllValues(t, saved);
    map ch | ch in channels && ch in all :: all[ch]
  }

  // ------------------------------------------------------------------- reading

  datatype Tuple = Tuple(
    id: Id,
    checkpoint: Checkpoint,
    metadata: Metadata,
    parent: Option<Id>,
    pending: seq<Write>)

  /** `_pending_writes`: a checkpoint's writes, by task and numeric index. */
  function Pending(t: ThreadRows, id: Id): seq<Write> {
    InOrder(WritesOf(t, id), SortedSlots(WritesOf(t, id).Keys))
  }

  function InOrder(writes: map<Slot, Write>, slots: seq<Slot>): (r: seq<Write>)
    requires forall s :: s in slots ==> s in writes
    ensures |r| == |slots| && forall i :: 0 <= i < |r| ==> r[i] == writes[slots[i]]
  {
    seq(|slots|, i requires 0 <= i < |slots| => writes[slots[i]])
  }

  /** Only the writes to `channels`, in the same order. */
  function ToChannels(writes: seq<Write>, channels: set<Channel>): seq<Write> {
    if writes == [] then []
    else
      var init := ToChannels(writes[..|writes| - 1], channels);
      var w := writes[|writes| - 1];
      if w.channel in channels then init + [w] else init
  }

  /** `_build_tuple`. */
  function LoadedCheckpoint(t: ThreadRows, saved: Record, incremental: bool): Checkpoint {
    if incremental && saved.cp.values.None?
    then saved.cp.(values := Some(Attached(t.bl, saved.cp.versions)))
    else saved.cp
  }

  function GetTuple(t: ThreadRows, id: Id, incremental: bool): Option<Tuple> {
    if id !in t.ck then None
    else
      var saved := t.ck[id];
      Some(Tuple(id, LoadedCheckpoint(t, saved, incremental), saved.md, saved.parent, Pending(t, id)))
  }

  /** What one delta channel is rebuilt from. */
  datatype History = History(writes: seq<Write>, seed: Option<Value>)

  /** The walk for a single channel: up the parents from `cursor` to the nearest
      checkpoint that holds a value for it. The writes come oldest first. */
  function Walk(t: ThreadRows, cursor: Option<Id>, ch: Channel): History
    requires ParentsOlder(t)
    decreases Height(cursor)
  {
    if cursor.None? || cursor.value !in t.ck then History([], None)
    else
      var saved := t.ck[cursor.value];
      var mine := ToChannels(Pending(t, cursor.value), {ch});
      if ch in AllValues(t, saved) then History(mine, Some(AllValues(t, saved)[ch]))
      else
        var older := Walk(t, saved.parent, ch);
        History(older.writes + mine, older.seed)
  }

  // ----------------------------------------------------------------- retention

  /** The ancestors on the walk up from `cursor` until every channel of `missing`
      has been found (or the chain ends). */
  function Ancestors(t: ThreadRows, cursor: Option<Id>, missing: set<Channel>): set<Id>
    requires ParentsOlder(t)
    decreases Height(cursor)
  {
    if missing == {} || cursor.None? || cursor.value !in t.ck then {}
    else
      var saved := t.ck[cursor.value];
      {cursor.value} + Ancestors(t, saved.parent, missing - Held(t, saved, missing).Keys)
  }

  /** The delta channels a checkpoint names but holds no value for. */
  function Missing(t: ThreadRows, saved: Record): set<Channel> {
    saved.md.delta - Held(t, saved, saved.md.delta).Keys
  }

  /** `_delta_ancestors` for one survivor. */
  function NeededBy(t: ThreadRows, id: Id): set<Id>
    requires ParentsOlder(t)
  {
    if id !in t.ck then {} else Ancestors(t, t.ck[id].parent, Missing(t, t.ck[id]))
  }

  /** `_delta_ancestors`. */
  function DeltaAncestors(t: ThreadRows, survivors: set<Id>): set<Id>
    requires ParentsOlder(t)
  {
    set s, a | s in survivors && a in NeededBy(t, s) :: a
  }

  /** `_referenced_blobs`. */
  function Referenced(t: ThreadRows, kept: set<Id>): set<BlobKey> {
    set id, ch | id in kept && id in t.ck && ch in t.ck[id].cp.versions :: (ch, t.ck[id].cp.versions[ch])
  }

  /** `_drop_checkpoints`. */
  function Drop(t: ThreadRows, doomed: set<Id>, kept: set<Id>, incremental: bool, indexed: bool): ThreadRows {
    var keep := Referenced(t, kept);
    ThreadRows(
      t.ck - doomed,
      t.wr - doomed,
      if incremental then map k | k in t.bl && k in keep :: t.bl[k] else t.bl,
      if !indexed && t.latest.Some? && t.latest.value in doomed
      then if kept != {} then Some(MaxId(kept)) else None
      else t.latest)
  }

  /** `_trim`, given every stored id. */
  function Trim(t: ThreadRows, keep: nat, incremental: bool, indexed: bool): ThreadRows
    requires ParentsOlder(t)
  {
    var kept := TrimKeeps(t, keep);
    var doomed := t.ck.Keys - kept;
    if doomed == {} then t else Drop(t, doomed, kept, incremental, indexed)
  }

  function TrimKeeps(t: ThreadRows, keep: nat): set<Id>
    requires ParentsOlder(t)
  {
    var survivors := Newest(t.ck.Keys, keep);
    survivors + DeltaAncestors(t, survivors)
  }

  /** The checkpoints `delete_for_runs` drops from this thread. */
  function RunCheckpoints(t: ThreadRows, wanted: set<string>): set<Id> {
    set id | id in t.ck && t.ck[id].md.runId.Some? && t.ck[id].md.runId.value in wanted
  }

  /** `delete_for_runs`, on this thread. */
  function DeleteRuns(t: ThreadRows, wanted: set<string>, incremental: bool, indexed: bool): ThreadRows {
    var doomed := RunCheckpoints(t, wanted);
    if doomed == {} then t else Drop(t, doomed, t.ck.Keys - doomed, incremental, indexed)
  }

  // ------------------------------------------------------------------- writing

  /** The blob a put writes for `ch`: its value, or the empty marker. */
  function BlobOf(cp: Checkpoint, ch: Channel): Blob {
    if cp.values.Some? && ch in cp.values.value then Present(cp.values.value[ch]) else Empty
  }

  /** The candidate blobs of an incremental put. */
  function NewBlobs(cp: Checkpoint, newVersions: map<Channel, Version>): map<BlobKey, Blob> {
    map k: BlobKey | k in newVersions.Items :: BlobOf(cp, k.0)
  }

  /** What `_put_rows` stores of a checkpoint. */
  function Stored(cp: Checkpoint, incremental: bool): Checkpoint {
    if incremental then cp.(values := None) else cp
  }

  /** `_put_impl` before retention. A blob already stored is never written again. */
  function Put(t: ThreadRows, id: Id, cp: Checkpoint, md: Metadata, parent: Option<Id>,
               newVersions: map<Channel, Version>, incremental: bool, publish: bool): ThreadRows
  {
    ThreadRows(
      t.ck[id := Record(Stored(cp, incremental), md, parent)],
      t.wr,
      if incremental then NewBlobs(cp, newVersions) + t.bl else t.bl,
      if publish then Some(id) else t.latest)
  }

  /** `WRITES_IDX_MAP.get(channel, idx)`. */
  function WriteIndex(special: map<Channel, int>, channel: Channel, idx: nat): int {
    if channel in special then special[channel] else idx
  }

  /** The rows `put_writes` builds from write `from` on: a positional write whose slot
      is already stored is skipped, a special (negative) one is not. */
  function WriteBatch(existing: set<Slot>, task: string, path: string, writes: seq<(Channel, Value)>,
                      special: map<Channel, int>, from: nat): seq<(Slot, Write)>
    decreases |writes| - from
  {
    if from >= |writes| then []
    else
      var (channel, value) := writes[from];
      var widx := WriteIndex(special, channel, from);
      var slot := Slot(task, widx);
      var later := WriteBatch(existing, task, path, writes, special, from + 1);
      if widx >= 0 && slot in existing then later
      else [(slot, Write(task, channel, value, path))] + later
  }

  /** `set_many` into one namespace: a later row overwrites an earlier one. */
  function Overwrite(m: map<Slot, Write>, batch: seq<(Slot, Write)>): map<Slot, Write>
    decreases |batch|
  {
    if batch == [] then m else Overwrite(m[batch[0].0 := batch[0].1], batch[1..])
  }

  /** The writes of one checkpoint after `put_writes`. */
  function WritesAfter(m: map<Slot, Write>, task: string, path: string, writes: seq<(Channel, Value)>,
                       special: map<Channel, int>): map<Slot, Write>
  {
    Overwrite(m, WriteBatch(m.Keys, task, path, writes, special, 0))
  }

  function PutWrites(t: ThreadRows, id: Id, task: string, path: string, writes: seq<(Channel, Value)>,
                     special: map<Channel, int>): ThreadRows
  {
    t.(wr := t.wr[id := WritesAfter(WritesOf(t, id), task, path, writes, special)])
  }

  // ------------------------------------------------------------------- resolving

  /** The newest stored id, as an index on the ids answers it. */
  function IndexedLatest(t: ThreadRows): Option<Id> {
    if t.ck == map[] then None else Some(MaxId(t.ck.Keys))
  }

  /** `_resolve` without an id: the pointer if what it names is stored, else a scan. */
  function PointedLatest(t: ThreadRows): Option<Id> {
    if t.latest.Some? && t.latest.value in t.ck then t.latest else IndexedLatest(t)
  }

  /** The scan republishes what it found. */
  function AfterResolve(t: ThreadRows): ThreadRows {
    if (t.latest.Some? && t.latest.value in t.ck) || t.ck == map[] then t
    else t.(latest := IndexedLatest(t))
  }

  // --------------------------------------------------------------------- copying

  /** `_retarget`. */
  function Retarget(saved: Record, source: string, target: string): Record {
    if saved.md.threadId == Some(source) then saved.(md := saved.md.(threadId := Some(target))) else saved
  }

  /** `copy_thread`, for one checkpoint namespace: `src` laid over `dst`. */
  function CopyInto(src: ThreadRows, dst: ThreadRows, source: string, target: string, indexed: bool): ThreadRows {
    var ck := dst.ck + map id | id in src.ck :: Retarget(src.ck[id], source, target);
    ThreadRows(
      ck,
      map id | id in dst.wr.Keys + src.wr.Keys :: WritesOf(dst, id) + WritesOf(src, id),
      dst.bl + src.bl,
      if indexed || ck == map[] then dst.latest else Some(MaxId(ck.Keys)))
  }
}
