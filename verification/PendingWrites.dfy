/** What `put_writes` leaves behind, and in which order it is read back. */
module PendingWrites {
  import opened Wrappers
  import opened Ids
  import opened WriteKeys
  import opened CheckpointRows
  import Text

  /** `WRITES_IDX_MAP` gives its channels distinct negative indices. */
  ghost predicate SpecialOk(special: map<Channel, int>) {
    && (forall ch :: ch in special ==> special[ch] < 0)
    && (forall a, b :: a in special && b in special && special[a] == special[b] ==> a == b)
  }

  /** The last write of the call to a special channel, if any. */
  function LastTo(writes: seq<(Channel, Value)>, channel: Channel): Option<Value> {
    if writes == [] then None
    else if writes[|writes| - 1].0 == channel then Some(writes[|writes| - 1].1)
    else LastTo(writes[..|writes| - 1], channel)
  }

  lemma {:induction false} OverwriteConcat(m: map<Slot, Write>, a: seq<(Slot, Write)>, b: seq<(Slot, Write)>)
    ensures Overwrite(m, a + b) == Overwrite(Overwrite(m, a), b)
    decreases |a|
  {
    if a == [] {
      assert a + b == b;
    } else {
      assert (a + b)[1..] == a[1..] + b;
      OverwriteConcat(m[a[0].0 := a[0].1], a[1..], b);
    }
  }

  /** The batch of a call is the batch of all but its last write, then that one. */
  lemma {:induction false} BatchSnoc(existing: set<Slot>, task: string, path: string,
                                     writes: seq<(Channel, Value)>, special: map<Channel, int>, from: nat)
    requires from < |writes|
    ensures var last := |writes| - 1;
            WriteBatch(existing, task, path, writes, special, from)
              == WriteBatch(existing, task, path, writes[..last], special, from)
                 + WriteBatch(existing, task, path, writes, special, last)
    decreases |writes| - from
  {
    var last := |writes| - 1;
    if from < last {
      BatchSnoc(existing, task, path, writes, special, from + 1);
      assert writes[..last][from] == writes[from];
    } else {
      assert WriteBatch(existing, task, path, writes[..last], special, from) == [];
    }
  }

  function Row(task: string, path: string, channel: Channel, value: Value): Write {
    Write(task, channel, value, path)
  }

  /** The stored write of a slot after a call, said slot by slot: another task's slots
      are untouched; a positional slot keeps what it had, or takes the write at its
      index; a special slot takes the last write to its channel. */
  ghost function Expected(m: map<Slot, Write>, task: string, path: string, writes: seq<(Channel, Value)>,
                          special: map<Channel, int>, s: Slot): Option<Write>
  {
    var kept := if s in m then Some(m[s]) else None;
    if s.task != task then kept
    else if s.idx >= 0 then
      if kept.None? && s.idx < |writes| && writes[s.idx].0 !in special
      then Some(Row(task, path, writes[s.idx].0, writes[s.idx].1))
      else kept
    else if exists ch :: ch in special && special[ch] == s.idx && LastTo(writes, ch).Some? then
      var ch :| ch in special && special[ch] == s.idx && LastTo(writes, ch).Some?;
      Some(Row(task, path, ch, LastTo(writes, ch).value))
    else kept
  }

  function SlotAt(m: map<Slot, Write>, s: Slot): Option<Write> {
    if s in m then Some(m[s]) else None
  }

  lemma {:induction false} WritesAfterIs(m: map<Slot, Write>, task: string, path: string,
                                         writes: seq<(Channel, Value)>, special: map<Channel, int>)
    requires SpecialOk(special)
    ensures forall s :: SlotAt(Overwrite(m, WriteBatch(m.Keys, task, path, writes, special, 0)), s)
                          == Expected(m, task, path, writes, special, s)
    decreases |writes|
  {
    if writes == [] {
      assert Overwrite(m, WriteBatch(m.Keys, task, path, writes, special, 0)) == m;
    } else {
      var last := |writes| - 1;
      var init := writes[..last];
      WritesAfterIs(m, task, path, init, special);
      BatchSnoc(m.Keys, task, path, writes, special, 0);
      var before := Overwrite(m, WriteBatch(m.Keys, task, path, init, special, 0));
      var tail := WriteBatch(m.Keys, task, path, writes, special, last);
      OverwriteConcat(m, WriteBatch(m.Keys, task, path, init, special, 0), tail);
      forall s ensures SlotAt(Overwrite(before, tail), s) == Expected(m, task, path, writes, special, s) {
        OneWriteMore(m, before, task, path, writes, special, s);
      }
    }
  }

  lemma OneWriteMore(m: map<Slot, Write>, before: map<Slot, Write>, task: string, path: string,
                     writes: seq<(Channel, Value)>, special: map<Channel, int>, s: Slot)
    requires SpecialOk(special) && writes != []
    requires SlotAt(before, s) == Expected(m, task, path, writes[..|writes| - 1], special, s)
    ensures SlotAt(Overwrite(before, WriteBatch(m.Keys, task, path, writes, special, |writes| - 1)), s)
              == Expected(m, task, path, writes, special, s)
  {
    var last := |writes| - 1;
    var init := writes[..last];
    var (channel, value) := writes[last];
    var slot := Slot(task, WriteIndex(special, channel, last));
    var tail := WriteBatch(m.Keys, task, path, writes, special, last);
    assert WriteBatch(m.Keys, task, path, writes, special, last + 1) == [];
    assert tail == if slot.idx >= 0 && slot in m then [] else [(slot, Row(task, path, channel, value))];
    assert Overwrite(before, tail) == if slot.idx >= 0 && slot in m then before
                                      else before[slot := Row(task, path, channel, value)] by {
      if !(slot.idx >= 0 && slot in m) {
        assert tail[1..] == [];
      }
    }
    forall ch ensures LastTo(writes, ch) == if ch == channel then Some(value) else LastTo(init, ch) {
    }
    if s.task == task && s.idx < 0 {
      SpecialSlot(special, init, writes, s.idx);
    }
  }

  /** Only the channel that owns a special slot can change it. */
  lemma SpecialSlot(special: map<Channel, int>, init: seq<(Channel, Value)>, writes: seq<(Channel, Value)>, idx: int)
    requires SpecialOk(special) && writes != [] && init == writes[..|writes| - 1]
    ensures forall ch :: ch in special && special[ch] == idx ==>
              LastTo(writes, ch) == if ch == writes[|writes| - 1].0 then Some(writes[|writes| - 1].1) else LastTo(init, ch)
  {
  }

  /** Replaying a call changes nothing: its positional writes are skipped, its special
      ones write what they wrote. */
  lemma ReplayChangesNothing(m: map<Slot, Write>, task: string, path: string, writes: seq<(Channel, Value)>,
                             special: map<Channel, int>)
    requires SpecialOk(special)
    ensures var once := WritesAfter(m, task, path, writes, special);
            WritesAfter(once, task, path, writes, special) == once
  {
    var once := WritesAfter(m, task, path, writes, special);
    var twice := WritesAfter(once, task, path, writes, special);
    WritesAfterIs(m, task, path, writes, special);
    WritesAfterIs(once, task, path, writes, special);
    SameMaps(twice, once);
  }

  lemma SameMaps(a: map<Slot, Write>, b: map<Slot, Write>)
    requires forall s :: SlotAt(a, s) == SlotAt(b, s)
    ensures a == b
  {
    forall s ensures s in a <==> s in b {
      assert SlotAt(a, s) == SlotAt(b, s);
    }
    forall s | s in a ensures a[s] == b[s] {
      assert SlotAt(a, s) == SlotAt(b, s);
    }
  }

  /** A retry with other values cannot change a positional write either. */
  lemma PositionalWritesAreWriteOnce(m: map<Slot, Write>, task: string, path: string,
                                     retry: seq<(Channel, Value)>, special: map<Channel, int>, s: Slot)
    requires SpecialOk(special) && s in m && s.idx >= 0
    ensures s in WritesAfter(m, task, path, retry, special) && WritesAfter(m, task, path, retry, special)[s] == m[s]
  {
    WritesAfterIs(m, task, path, retry, special);
    assert SlotAt(WritesAfter(m, task, path, retry, special), s) == Expected(m, task, path, retry, special, s);
  }

  // ------------------------------------------------------------ the async path

  /** `_write_rows`: every write encoded, flagged positional or not. */
  function WriteRows(task: string, path: string, writes: seq<(Channel, Value)>, special: map<Channel, int>,
                     from: nat): seq<(Slot, Write, bool)>
    decreases |writes| - from
  {
    if from >= |writes| then []
    else
      var (channel, value) := writes[from];
      var widx := WriteIndex(special, channel, from);
      [(Slot(task, widx), Write(task, channel, value, path), widx >= 0)]
        + WriteRows(task, path, writes, special, from + 1)
  }

  /** The stored slots the async path asks for: those whose key starts with the task. */
  function TaskSlots(stored: set<Slot>, task: string): set<Slot> {
    set s | s in stored && Text.StartsWith(Key(s), task + [SEP])
  }

  /** The rows it then writes. */
  function NewRows(rows: seq<(Slot, Write, bool)>, existing: set<Slot>): seq<(Slot, Write)> {
    if rows == [] then []
    else
      var (slot, write, positional) := rows[0];
      (if positional && slot in existing then [] else [(slot, write)]) + NewRows(rows[1..], existing)
  }

  /** `_aput_writes_impl`: the keys are only listed when some row is positional. */
  function AsyncBatch(stored: set<Slot>, task: string, path: string, writes: seq<(Channel, Value)>,
                      special: map<Channel, int>): seq<(Slot, Write)>
  {
    var rows := WriteRows(task, path, writes, special, 0);
    var existing := if exists r :: r in rows && r.2 then TaskSlots(stored, task) else {};
    NewRows(rows, existing)
  }

  /** Both paths write the same batch. */
  lemma AsyncWritesTheSame(stored: set<Slot>, task: string, path: string, writes: seq<(Channel, Value)>,
                           special: map<Channel, int>)
    ensures AsyncBatch(stored, task, path, writes, special) == WriteBatch(stored, task, path, writes, special, 0)
  {
    var rows := WriteRows(task, path, writes, special, 0);
    var existing := if exists r :: r in rows && r.2 then TaskSlots(stored, task) else {};
    forall r | r in rows && r.2 ensures r.0 in existing <==> r.0 in stored {
      RowsAreOfTask(task, path, writes, special, 0);
      assert Key(r.0)[..|task| + 1] == task + [SEP];
    }
    AsyncFrom(stored, existing, task, path, writes, special, 0);
  }

  lemma {:induction false} RowsAreOfTask(task: string, path: string, writes: seq<(Channel, Value)>,
                                         special: map<Channel, int>, from: nat)
    ensures forall r :: r in WriteRows(task, path, writes, special, from) ==> r.0.task == task
    decreases |writes| - from
  {
    if from < |writes| { RowsAreOfTask(task, path, writes, special, from + 1); }
  }

  lemma {:induction false} AsyncFrom(stored: set<Slot>, existing: set<Slot>, task: string, path: string,
                                     writes: seq<(Channel, Value)>, special: map<Channel, int>, from: nat)
    requires forall r :: r in WriteRows(task, path, writes, special, from) && r.2 ==> (r.0 in existing <==> r.0 in stored)
    ensures NewRows(WriteRows(task, path, writes, special, from), existing)
              == WriteBatch(stored, task, path, writes, special, from)
    decreases |writes| - from
  {
    if from < |writes| {
      var rows := WriteRows(task, path, writes, special, from);
      assert rows[0] in rows;
      assert rows[1..] == WriteRows(task, path, writes, special, from + 1);
      AsyncFrom(stored, existing, task, path, writes, special, from + 1);
    }
  }

  // ---------------------------------------------------------------- reading back

  /** After a call on any checkpoint, its pending writes are those of every slot that holds
      one, by task and numeric index, each the write its slot is to hold: what was there, or
      what the call put there. */
  lemma WritesReadBack(t: ThreadRows, id: Id, task: string, path: string, writes: seq<(Channel, Value)>,
                       special: map<Channel, int>)
    requires SpecialOk(special)
    ensures var after := PutWrites(t, id, task, path, writes, special);
            var slots := SortedSlots(WritesOf(after, id).Keys);
            && Sorted(slots)
            && (forall s :: s in slots <==> Expected(WritesOf(t, id), task, path, writes, special, s).Some?)
            && |Pending(after, id)| == |slots|
            && forall k :: 0 <= k < |slots| ==>
                 Some(Pending(after, id)[k]) == Expected(WritesOf(t, id), task, path, writes, special, slots[k])
  {
    var m := WritesOf(t, id);
    var after := PutWrites(t, id, task, path, writes, special);
    WritesAfterIs(m, task, path, writes, special);
    assert WritesOf(after, id) == WritesAfter(m, task, path, writes, special);
    var slots := SortedSlots(WritesOf(after, id).Keys);
    forall s ensures s in slots <==> Expected(m, task, path, writes, special, s).Some? {
      assert SlotAt(WritesOf(after, id), s) == Expected(m, task, path, writes, special, s);
    }
    forall k | 0 <= k < |slots|
      ensures Some(Pending(after, id)[k]) == Expected(m, task, path, writes, special, slots[k])
    {
      assert SlotAt(WritesOf(after, id), slots[k]) == Expected(m, task, path, writes, special, slots[k]);
    }
  }

  lemma SortedPositions(slots: seq<Slot>, s: Slot, r: Slot) returns (a: nat, b: nat)
    requires Sorted(slots) && s in slots && r in slots && Before(s, r)
    ensures a < b < |slots| && slots[a] == s && slots[b] == r
  {
    BeforeIsTotalOrder(s, r);
    a :| 0 <= a < |slots| && slots[a] == s;
    b :| 0 <= b < |slots| && slots[b] == r;
  }

  /** So of two writes of one call that find their slots free, the earlier reads back
      earlier, whatever other tasks wrote and however many writes there are. */
  lemma WritesReadBackInOrder(t: ThreadRows, id: Id, task: string, path: string, writes: seq<(Channel, Value)>,
                              special: map<Channel, int>, i: nat, j: nat)
      returns (a: nat, b: nat)
    requires SpecialOk(special) && i < j < |writes| && writes[i].0 !in special && writes[j].0 !in special
    requires Slot(task, i) !in WritesOf(t, id) && Slot(task, j) !in WritesOf(t, id)
    ensures var pending := Pending(PutWrites(t, id, task, path, writes, special), id);
            && a < b < |pending|
            && pending[a] == Row(task, path, writes[i].0, writes[i].1)
            && pending[b] == Row(task, path, writes[j].0, writes[j].1)
  {
    WritesReadBack(t, id, task, path, writes, special);
    var slots := SortedSlots(WritesOf(PutWrites(t, id, task, path, writes, special), id).Keys);
    FreeSlot(WritesOf(t, id), task, path, writes, special, i);
    FreeSlot(WritesOf(t, id), task, path, writes, special, j);
    SlotsOfOneTask(task, i, j);
    a, b := SortedPositions(slots, Slot(task, i), Slot(task, j));
  }

  lemma FreeSlot(m: map<Slot, Write>, task: string, path: string, writes: seq<(Channel, Value)>,
                 special: map<Channel, int>, i: nat)
    requires i < |writes| && writes[i].0 !in special && Slot(task, i) !in m
    ensures Expected(m, task, path, writes, special, Slot(task, i)) == Some(Row(task, path, writes[i].0, writes[i].1))
  {
  }

  lemma SlotsOfOneTask(task: string, i: int, j: int)
    requires i < j
    ensures Before(Slot(task, i), Slot(task, j))
  {
  }
}
