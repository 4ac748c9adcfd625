/** Incremental storage is transparent.

    One saver stores every checkpoint with its channel values inline, another stores
    each `(channel, version)` once and reattaches the values on reading. Fed the same
    puts, writes, trims and run deletions, both return the same tuples. */
module Incremental {
  import opened Wrappers
  import opened Ids
  import opened CheckpointRows
  import opened Retention

  datatype Op =
    | Do(event: Event)
    | TrimTo(keep: nat)
    | DropRuns(wanted: set<string>)

  ghost function Step(t: ThreadRows, op: Op, incremental: bool, indexed: bool): ThreadRows
    requires ParentsOlder(t)
  {
    match op
    case Do(event) => Apply(t, event, incremental)
    case TrimTo(keep) => Trim(t, keep, incremental, indexed)
    case DropRuns(wanted) => DeleteRuns(t, wanted, incremental, indexed)
  }

  /** A put keeps its side of the versioning: parents are older, the value of a channel
      is the one its version stands for, every value has a version, and a version that
      is not new is that of a checkpoint still stored. */
  ghost predicate Versioned(inline: ThreadRows, e: Event, g: BlobKey -> Blob)
    requires e.PutEvent?
  {
    && ParentIsOlder(e)
    && e.cp.values.Some?
    && e.cp.values.value.Keys <= e.cp.versions.Keys
    && (forall ch :: ch in e.cp.versions ==> BlobOf(e.cp, ch) == g((ch, e.cp.versions[ch])))
    && (forall ch :: ch in e.newVersions ==> BlobOf(e.cp, ch) == g((ch, e.newVersions[ch])))
    && (forall ch :: ch in e.cp.versions ==>
          || (ch in e.newVersions && e.newVersions[ch] == e.cp.versions[ch])
          || StoredVersion(inline, ch, e.cp.versions[ch]))
  }

  ghost predicate StoredVersion(t: ThreadRows, ch: Channel, ver: Version) {
    exists q :: q in t.ck && ch in t.ck[q].cp.versions && t.ck[q].cp.versions[ch] == ver
  }

  ghost predicate Allowed(inline: ThreadRows, op: Op, g: BlobKey -> Blob) {
    op.Do? && op.event.PutEvent? ==> Versioned(inline, op.event, g)
  }

  /** The two threads hold the same checkpoints, inline in one, split in the other. */
  ghost predicate SameCheckpoints(inline: ThreadRows, split: ThreadRows) {
    && split.ck.Keys == inline.ck.Keys
    && split.wr == inline.wr
    && split.latest == inline.latest
    && (forall id :: id in inline.ck ==> inline.ck[id].cp.values.Some?)
    && (forall id :: id in inline.ck ==> split.ck[id] == SplitRecord(inline.ck[id]))
  }

  function SplitRecord(saved: Record): Record {
    saved.(cp := saved.cp.(values := None))
  }

  /** Inline values are what the versions beside them stand for. */
  ghost predicate InlineMeans(inline: ThreadRows, g: BlobKey -> Blob) {
    forall id :: id in inline.ck ==> CheckpointMeans(inline.ck[id].cp, g)
  }

  ghost predicate CheckpointMeans(cp: Checkpoint, g: BlobKey -> Blob) {
    && cp.values.Some?
    && cp.values.value.Keys <= cp.versions.Keys
    && (forall ch :: ch in cp.versions ==> BlobOf(cp, ch) == g((ch, cp.versions[ch])))
  }

  ghost predicate Transparent(inline: ThreadRows, split: ThreadRows, g: BlobKey -> Blob) {
    && ParentsOlder(inline)
    && SameCheckpoints(inline, split)
    && InlineMeans(inline, g)
    && Sound(split, g)
  }

  lemma AttachedIsInline(cp: Checkpoint, bl: map<BlobKey, Blob>, g: BlobKey -> Blob)
    requires CheckpointMeans(cp, g)
    requires BlobsPresent(bl, cp.versions)
    requires forall k :: k in bl ==> bl[k] == g(k)
    ensures Attached(bl, cp.versions) == cp.values.value
  {
    forall ch | ch in cp.versions ensures bl[(ch, cp.versions[ch])] == BlobOf(cp, ch) {
    }
  }

  lemma SameValuesSplit(inline: ThreadRows, split: ThreadRows, g: BlobKey -> Blob, id: Id)
    requires Transparent(inline, split, g) && id in inline.ck
    ensures AllValues(split, split.ck[id]) == AllValues(inline, inline.ck[id])
    ensures LoadedCheckpoint(split, split.ck[id], true) == LoadedCheckpoint(inline, inline.ck[id], false)
  {
    assert split.ck[id] == SplitRecord(inline.ck[id]);
    assert CheckpointMeans(inline.ck[id].cp, g);
    assert BlobsPresent(split.bl, split.ck[id].cp.versions);
    AttachedIsInline(inline.ck[id].cp, split.bl, g);
  }

  lemma SameTupleSplit(inline: ThreadRows, split: ThreadRows, g: BlobKey -> Blob, id: Id)
    requires Transparent(inline, split, g)
    ensures GetTuple(split, id, true) == GetTuple(inline, id, false)
  {
    if id in inline.ck {
      SameValuesSplit(inline, split, g, id);
      assert split.ck[id] == SplitRecord(inline.ck[id]);
      assert WritesOf(split, id) == WritesOf(inline, id);
    }
  }

  // ------------------------------------------------------------------ retention

  lemma {:induction false} SameAncestorsSplit(inline: ThreadRows, split: ThreadRows, g: BlobKey -> Blob,
                                              cursor: Option<Id>, missing: set<Channel>)
    requires Transparent(inline, split, g) && ParentsOlder(split)
    ensures Ancestors(split, cursor, missing) == Ancestors(inline, cursor, missing)
    decreases Height(cursor)
  {
    if !(missing == {} || cursor.None? || cursor.value !in inline.ck) {
      var saved := inline.ck[cursor.value];
      assert split.ck[cursor.value] == SplitRecord(saved);
      SameValuesSplit(inline, split, g, cursor.value);
      SameAncestorsSplit(inline, split, g, saved.parent, missing - Held(inline, saved, missing).Keys);
    }
  }

  lemma SplitParentsOlder(inline: ThreadRows, split: ThreadRows)
    requires ParentsOlder(inline) && SameCheckpoints(inline, split)
    ensures ParentsOlder(split)
  {
    forall id | id in split.ck && split.ck[id].parent.Some? ensures split.ck[id].parent.value < id {
      assert split.ck[id] == SplitRecord(inline.ck[id]);
    }
  }

  lemma TrimKeepsTheSame(inline: ThreadRows, split: ThreadRows, g: BlobKey -> Blob, keep: nat)
    requires Transparent(inline, split, g) && ParentsOlder(split)
    ensures TrimKeeps(split, keep) == TrimKeeps(inline, keep)
  {
    var window := Newest(inline.ck.Keys, keep);
    forall id | id in window ensures NeededBy(split, id) == NeededBy(inline, id) {
      assert split.ck[id] == SplitRecord(inline.ck[id]);
      SameValuesSplit(inline, split, g, id);
      SameAncestorsSplit(inline, split, g, inline.ck[id].parent, Missing(inline, inline.ck[id]));
    }
    DeltaAncestorsAgree(inline, split, window);
  }

  lemma DropIsTransparent(inline: ThreadRows, split: ThreadRows, g: BlobKey -> Blob,
                          doomed: set<Id>, kept: set<Id>, indexed: bool)
    requires Transparent(inline, split, g) && doomed == inline.ck.Keys - kept
    ensures Transparent(Drop(inline, doomed, kept, false, indexed), Drop(split, doomed, kept, true, indexed), g)
  {
    DropIsSound(split, g, doomed, kept, true, indexed);
    assert (split.ck - doomed).Keys == (inline.ck - doomed).Keys;
  }

  // ------------------------------------------------------------------- every run

  lemma PutIsTransparent(inline: ThreadRows, split: ThreadRows, g: BlobKey -> Blob, e: Event)
    requires Transparent(inline, split, g) && e.PutEvent? && Versioned(inline, e, g)
    ensures Transparent(Apply(inline, e, false), Apply(split, e, true), g)
  {
    forall ch | ch in e.cp.versions
      ensures || (ch in e.newVersions && e.newVersions[ch] == e.cp.versions[ch])
              || Inherited(split, split.ck.Keys, ch, e.cp.versions[ch])
    {
      if StoredVersion(inline, ch, e.cp.versions[ch]) {
        var q :| q in inline.ck && ch in inline.ck[q].cp.versions
                 && inline.ck[q].cp.versions[ch] == e.cp.versions[ch];
        assert split.ck[q] == SplitRecord(inline.ck[q]);
      }
    }
    PutSettles(split, split.ck.Keys, e, true, g);
    var inline' := Apply(inline, e, false);
    assert inline'.ck[e.id].cp == e.cp;
  }

  lemma StepIsTransparent(inline: ThreadRows, split: ThreadRows, g: BlobKey -> Blob, op: Op, indexed: bool)
    requires Transparent(inline, split, g) && Allowed(inline, op, g)
    ensures ParentsOlder(split)
    ensures Transparent(Step(inline, op, false, indexed), Step(split, op, true, indexed), g)
  {
    SplitParentsOlder(inline, split);
    match op {
      case Do(event) =>
        if event.PutEvent? { PutIsTransparent(inline, split, g, event); }
      case TrimTo(keep) =>
        TrimKeepsTheSame(inline, split, g, keep);
        var kept := TrimKeeps(inline, keep);
        DropIsTransparent(inline, split, g, inline.ck.Keys - kept, kept, indexed);
      case DropRuns(wanted) =>
        RunsAgree(inline, split, wanted);
        var doomed := RunCheckpoints(inline, wanted);
        assert inline.ck.Keys - (inline.ck.Keys - doomed) == doomed;
        DropIsTransparent(inline, split, g, doomed, inline.ck.Keys - doomed, indexed);
    }
  }

  lemma RunsAgree(inline: ThreadRows, split: ThreadRows, wanted: set<string>)
    requires SameCheckpoints(inline, split)
    ensures RunCheckpoints(split, wanted) == RunCheckpoints(inline, wanted)
  {
    forall id | id in inline.ck ensures split.ck[id].md == inline.ck[id].md {
      assert split.ck[id] == SplitRecord(inline.ck[id]);
    }
  }

  /** A run of the full-storage saver in which every put keeps its side. */
  ghost predicate AllowedRun(ops: seq<Op>, states: seq<ThreadRows>, indexed: bool, g: BlobKey -> Blob) {
    && |states| == |ops| + 1 && states[0] == EMPTY
    && (forall i :: 0 <= i < |ops| ==>
          && Allowed(states[i], ops[i], g)
          && ParentsOlder(states[i])
          && states[i + 1] == Step(states[i], ops[i], false, indexed))
  }

  ghost predicate SplitRun(ops: seq<Op>, states: seq<ThreadRows>, indexed: bool) {
    && |states| == |ops| + 1 && states[0] == EMPTY
    && (forall i :: 0 <= i < |ops| ==>
          ParentsOlder(states[i]) && states[i + 1] == Step(states[i], ops[i], true, indexed))
  }

  /** After every operation of every run, `get_tuple` returns the same from both. */
  lemma {:induction false} IncrementalIsTransparent(ops: seq<Op>, inline: seq<ThreadRows>, split: seq<ThreadRows>,
                                                    indexed: bool, g: BlobKey -> Blob, k: nat, id: Id)
    requires AllowedRun(ops, inline, indexed, g) && SplitRun(ops, split, indexed) && k <= |ops|
    ensures GetTuple(split[k], id, true) == GetTuple(inline[k], id, false)
  {
    RunIsTransparent(ops, inline, split, indexed, g, k);
    SameTupleSplit(inline[k], split[k], g, id);
  }

  lemma {:induction false} RunIsTransparent(ops: seq<Op>, inline: seq<ThreadRows>, split: seq<ThreadRows>,
                                            indexed: bool, g: BlobKey -> Blob, k: nat)
    requires AllowedRun(ops, inline, indexed, g) && SplitRun(ops, split, indexed) && k <= |ops|
    ensures Transparent(inline[k], split[k], g)
  {
    if k > 0 {
      RunIsTransparent(ops, inline, split, indexed, g, k - 1);
      assert Allowed(inline[k - 1], ops[k - 1], g);
      StepIsTransparent(inline[k - 1], split[k - 1], g, ops[k - 1], indexed);
    }
  }
}
