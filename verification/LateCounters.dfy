/** The byte counter of one shard when deletions count late.

    `delete_namespace` and `clear` take their rows away under the shard's lock and move the
    counter only after they have let it go. Every other operation moves it while it holds
    the lock (see `LockProtocol`), so here each of those is one step; a snapshot holds its
    read lock from the clone of the shard to the load of the counter, so that what it clones
    is what the shard holds when the counter is loaded. */
module LateCounters {
  import opened Wrappers

  /** What a snapshot took of the shard: how much it holds, and the counter. */
  datatype Snap = Snap(size: nat, bytes: int)

  /** `pending` are the lengths that deletions took out and have still to count off,
      `clears` the clears that emptied the shard and have still to zero its counter. */
  datatype Shard = Shard(size: nat, bytes: int, pending: seq<nat>, clears: nat, snaps: seq<Snap>)

  datatype Action =
    | Write(to: nat)       // a write: what the shard holds afterwards
    | Remove(freed: nat)   // `delete_namespace`, under the lock
    | CountOff(k: nat)     // and after it
    | Empty                // `clear`, under the lock
    | Zero                 // and after it
    | Take                 // a snapshot
    | Restore(k: nat)      // of the k-th snapshot

  function Owed(pending: seq<nat>): nat {
    if pending == [] then 0 else pending[0] + Owed(pending[1..])
  }

  predicate Enabled(s: Shard, a: Action) {
    match a
    case Remove(freed) => freed <= s.size
    case CountOff(k) => k < |s.pending|
    case Zero => s.clears > 0
    case Restore(k) => k < |s.snaps|
    case _ => true
  }

  function Next(s: Shard, a: Action): Shard
    requires Enabled(s, a)
  {
    match a
    case Write(to) => s.(size := to, bytes := s.bytes + to - s.size)
    case Remove(freed) => s.(size := s.size - freed, pending := s.pending + [freed])
    case CountOff(k) => s.(bytes := s.bytes - s.pending[k], pending := s.pending[..k] + s.pending[k + 1..])
    case Empty => s.(size := 0, clears := s.clears + 1)
    case Zero => s.(bytes := 0, clears := s.clears - 1)
    case Take => s.(snaps := s.snaps + [Snap(s.size, s.bytes)])
    case Restore(k) => s.(size := s.snaps[k].size, bytes := s.snaps[k].bytes)
  }

  /** The shard after a run from an empty one; None if the run is not one it can take. */
  function After(actions: seq<Action>): Option<Shard>
    decreases |actions|
  {
    if actions == [] then Some(Shard(0, 0, [], 0, []))
    else
      var last := actions[|actions| - 1];
      match After(actions[..|actions| - 1])
      case None => None
      case Some(s) => if Enabled(s, last) then Some(Next(s, last)) else None
  }

  lemma OneMore(actions: seq<Action>, a: Action, s: Shard)
    requires After(actions) == Some(s) && Enabled(s, a)
    ensures After(actions + [a]) == Some(Next(s, a))
  {
    assert (actions + [a])[..|actions|] == actions;
  }

  // ------------------------------------------------------------------------- sums

  lemma {:induction false} OwedConcat(a: seq<nat>, b: seq<nat>)
    ensures Owed(a + b) == Owed(a) + Owed(b)
    decreases |a|
  {
    if a == [] {
      assert a + b == b;
    } else {
      assert (a + b)[1..] == a[1..] + b;
      OwedConcat(a[1..], b);
    }
  }

  lemma OwedOneMore(pending: seq<nat>, freed: nat)
    ensures Owed(pending + [freed]) == Owed(pending) + freed
  {
    OwedConcat(pending, [freed]);
    assert [freed][1..] == [];
  }

  lemma OwedOneLess(pending: seq<nat>, k: nat)
    requires k < |pending|
    ensures Owed(pending) == pending[k] + Owed(pending[..k] + pending[k + 1..])
  {
    assert pending == pending[..k] + ([pending[k]] + pending[k + 1..]);
    OwedConcat(pending[..k], [pending[k]] + pending[k + 1..]);
    OwedConcat(pending[..k], pending[k + 1..]);
    assert ([pending[k]] + pending[k + 1..])[1..] == pending[k + 1..];
  }

  predicate NothingFreed(pending: seq<nat>) {
    forall i :: 0 <= i < |pending| ==> pending[i] == 0
  }

  lemma {:induction false} OwedNothing(pending: seq<nat>)
    ensures Owed(pending) == 0 <==> NothingFreed(pending)
  {
    if pending != [] {
      OwedNothing(pending[1..]);
      if NothingFreed(pending[1..]) && pending[0] == 0 {
        forall i | 0 <= i < |pending| ensures pending[i] == 0 {
          assert i > 0 ==> pending[i] == pending[1..][i - 1];
        }
      }
    }
  }

  // --------------------------------------------------------------- when it is right

  /** The counter will be right once every deletion has counted off. */
  predicate Right(s: Shard) {
    s.bytes == s.size + Owed(s.pending)
  }

  /** What a restore and a zeroing have to meet: the restored snapshot carries too much by
      exactly what is still to be counted off; a shard that is zeroed holds nothing, and
      nothing is still to be counted off. */
  predicate ResetOk(s: Shard, a: Action)
    requires Enabled(s, a)
  {
    match a
    case Restore(k) => s.snaps[k].bytes == s.snaps[k].size + Owed(s.pending)
    case Zero => s.size == 0 && NothingFreed(s.pending)
    case _ => true
  }

  /** The last restore or zeroing of a run met that; so did a run without one. */
  predicate LastResetOk(actions: seq<Action>)
    decreases |actions|
  {
    actions == [] ||
    var n := |actions| - 1;
    var a := actions[n];
    if a.Restore? || a.Zero? then
      After(actions[..n]).Some? && Enabled(After(actions[..n]).value, a) && ResetOk(After(actions[..n]).value, a)
    else LastResetOk(actions[..n])
  }

  lemma StepKeepsRight(s: Shard, a: Action)
    requires Enabled(s, a) && (a.Write? || a.Remove? || a.CountOff? || a.Take?)
    ensures Right(Next(s, a)) <==> Right(s)
  {
    match a
    case Remove(freed) => OwedOneMore(s.pending, freed);
    case CountOff(k) => OwedOneLess(s.pending, k);
    case _ =>
  }

  lemma ResetMakesRightIff(s: Shard, a: Action)
    requires Enabled(s, a) && (a.Restore? || a.Zero?)
    ensures Right(Next(s, a)) <==> ResetOk(s, a)
  {
    OwedNothing(s.pending);
  }

  lemma {:induction false} RightIff(actions: seq<Action>, s: Shard)
    requires After(actions) == Some(s)
    ensures s.clears == 0 ==> (Right(s) <==> LastResetOk(actions))
    decreases |actions|
  {
    if actions != [] {
      var n := |actions| - 1;
      var before, a := After(actions[..n]).value, actions[n];
      RightIff(actions[..n], before);
      if a.Restore? || a.Zero? {
        ResetMakesRightIff(before, a);
      } else if !a.Empty? {
        StepKeepsRight(before, a);
      }
    }
  }

  /** Whatever writes, deletions, clears, snapshots and restores were run, exact snapshots
      or not: with no clear between its halves, the counter is right, up to the deletions
      still to count off, exactly when the last restore or zeroing met its condition. */
  lemma CounterIsRightIff(actions: seq<Action>, s: Shard)
    requires After(actions) == Some(s) && s.clears == 0
    ensures s.bytes == s.size + Owed(s.pending) <==> LastResetOk(actions)
  {
    RightIff(actions, s);
  }

  /** So with nothing going on any more, it is the size of the shard exactly then. */
  lemma CounterIsExactIff(actions: seq<Action>, s: Shard)
    requires After(actions) == Some(s) && s.clears == 0 && s.pending == []
    ensures s.bytes == s.size <==> LastResetOk(actions)
  {
    RightIff(actions, s);
  }

  predicate NoResets(actions: seq<Action>) {
    forall a :: a in actions ==> !a.Restore? && !a.Empty? && !a.Zero?
  }

  lemma {:induction false} NoResetIsOk(actions: seq<Action>, s: Shard)
    requires After(actions) == Some(s) && NoResets(actions)
    ensures LastResetOk(actions) && s.clears == 0
    decreases |actions|
  {
    if actions != [] {
      var n := |actions| - 1;
      assert actions[n] in actions;
      forall a | a in actions[..n] ensures a in actions {
      }
      NoResetIsOk(actions[..n], After(actions[..n]).value);
    }
  }

  /** As long as the last reset met its condition, the counter, and what a snapshot carries,
      is never too small, and exact just when no deletion that removed something has still
      to count it off. */
  lemma OkCounterOnlyLags(actions: seq<Action>, s: Shard)
    requires After(actions) == Some(s) && s.clears == 0 && LastResetOk(actions)
    ensures s.bytes >= s.size && (s.bytes == s.size <==> NothingFreed(s.pending))
  {
    RightIff(actions, s);
    OwedNothing(s.pending);
  }

  /** In particular without restores and clears. */
  lemma DeletionsOnlyLag(actions: seq<Action>, s: Shard)
    requires After(actions) == Some(s) && NoResets(actions)
    ensures s.bytes >= s.size && (s.bytes == s.size <==> NothingFreed(s.pending))
  {
    NoResetIsOk(actions, s);
    OkCounterOnlyLags(actions, s);
  }

  // -------------------------------------------------------- restoring with care

  lemma {:induction false} SnapsStay(before: seq<Action>, later: seq<Action>, s: Shard, t: Shard)
    requires After(before) == Some(s) && After(before + later) == Some(t)
    ensures s.snaps <= t.snaps
    decreases |later|
  {
    if later == [] {
      assert before + later == before;
    } else {
      var n := |later| - 1;
      assert (before + later)[..|before| + n] == before + later[..n];
      SnapsStay(before, later[..n], s, After(before + later[..n]).value);
    }
  }

  /** A snapshot taken and restored while no deletion is outstanding and no clear between
      its halves, of a counter that was right, meets the condition, whatever went on in
      between. */
  lemma QuietRestoreIsOk(before: seq<Action>, later: seq<Action>, s: Shard, t: Shard)
    requires After(before) == Some(s) && s.clears == 0 && NothingFreed(s.pending) && LastResetOk(before)
    requires After(before + [Take] + later) == Some(t) && NothingFreed(t.pending)
    ensures Enabled(t, Restore(|s.snaps|)) && ResetOk(t, Restore(|s.snaps|))
    ensures LastResetOk(before + [Take] + later + [Restore(|s.snaps|)])
  {
    var k := |s.snaps|;
    RightIff(before, s);
    OwedNothing(s.pending);
    OwedNothing(t.pending);
    OneMore(before, Take, s);
    SnapsStay(before + [Take], later, Next(s, Take), t);
    assert t.snaps[k] == Snap(s.size, s.bytes);
    var run := before + [Take] + later;
    assert (run + [Restore(k)])[..|run|] == run;
  }

  // ---------------------------------------------------------------------- witnesses

  /** A restore between a deletion and its counting off: with nothing going on any more, the
      counter stays short for good. */
  lemma RestoreBetweenLosesBytes(n: nat)
    requires n > 0
    ensures After([Take, Write(n), Remove(n), Restore(0), CountOff(0)]) == Some(Shard(0, 0 - n, [], 0, [Snap(0, 0)]))
  {
    var snaps := [Snap(0, 0)];
    OneMore([], Take, Shard(0, 0, [], 0, []));
    assert [] + [Take] == [Take] && [] + [Snap(0, 0)] == snaps;
    OneMore([Take], Write(n), Shard(0, 0, [], 0, snaps));
    assert [Take] + [Write(n)] == [Take, Write(n)];
    OneMore([Take, Write(n)], Remove(n), Shard(n, n, [], 0, snaps));
    assert [Take, Write(n)] + [Remove(n)] == [Take, Write(n), Remove(n)] && [] + [n] == [n];
    OneMore([Take, Write(n), Remove(n)], Restore(0), Shard(0, n, [n], 0, snaps));
    assert [Take, Write(n), Remove(n)] + [Restore(0)] == [Take, Write(n), Remove(n), Restore(0)];
    assert [n][..0] + [n][1..] == [];
    OneMore([Take, Write(n), Remove(n), Restore(0)], CountOff(0), Shard(0, 0, [n], 0, snaps));
    assert [Take, Write(n), Remove(n), Restore(0)] + [CountOff(0)] == [Take, Write(n), Remove(n), Restore(0), CountOff(0)];
  }

  /** A deletion, and a snapshot of it before it is counted off. */
  lemma TakenTooEarly(n: nat)
    ensures After([Write(n), Remove(n), Take]) == Some(Shard(0, n, [n], 0, [Snap(0, n)]))
  {
    OneMore([], Write(n), Shard(0, 0, [], 0, []));
    assert [] + [Write(n)] == [Write(n)];
    OneMore([Write(n)], Remove(n), Shard(n, n, [], 0, []));
    assert [Write(n)] + [Remove(n)] == [Write(n), Remove(n)] && [] + [n] == [n];
    OneMore([Write(n), Remove(n)], Take, Shard(0, n, [n], 0, []));
    assert [Write(n), Remove(n)] + [Take] == [Write(n), Remove(n), Take] && [] + [Snap(0, n)] == [Snap(0, n)];
  }

  /** Its snapshot carries too much, and restored later it brings that back for good. */
  lemma InexactSnapshotComesBack(n: nat)
    requires n > 0
    ensures After([Write(n), Remove(n), Take, CountOff(0), Restore(0)]) == Some(Shard(0, n, [], 0, [Snap(0, n)]))
  {
    TakenTooEarly(n);
    var taken := [Write(n), Remove(n), Take];
    assert [n][..0] + [n][1..] == [];
    OneMore(taken, CountOff(0), Shard(0, n, [n], 0, [Snap(0, n)]));
    assert taken + [CountOff(0)] == [Write(n), Remove(n), Take, CountOff(0)];
    OneMore([Write(n), Remove(n), Take, CountOff(0)], Restore(0), Shard(0, 0, [], 0, [Snap(0, n)]));
    assert [Write(n), Remove(n), Take, CountOff(0)] + [Restore(0)] == [Write(n), Remove(n), Take, CountOff(0), Restore(0)];
  }

  /** Restored before the deletion counts off, the same snapshot does no harm: that a
      restore falls between a deletion and its counting off is not what decides. */
  lemma OverlapCanBeHarmless(n: nat)
    ensures After([Write(n), Remove(n), Take, Restore(0), CountOff(0)]) == Some(Shard(0, 0, [], 0, [Snap(0, n)]))
  {
    TakenTooEarly(n);
    var taken := [Write(n), Remove(n), Take];
    OneMore(taken, Restore(0), Shard(0, n, [n], 0, [Snap(0, n)]));
    assert taken + [Restore(0)] == [Write(n), Remove(n), Take, Restore(0)];
    assert [n][..0] + [n][1..] == [];
    OneMore([Write(n), Remove(n), Take, Restore(0)], CountOff(0), Shard(0, n, [n], 0, [Snap(0, n)]));
    assert [Write(n), Remove(n), Take, Restore(0)] + [CountOff(0)] == [Write(n), Remove(n), Take, Restore(0), CountOff(0)];
  }

  /** A write between the halves of a `clear` is not counted. */
  lemma WriteBetweenIsNotCounted(n: nat)
    requires n > 0
    ensures After([Empty, Write(n), Zero]) == Some(Shard(n, 0, [], 0, []))
  {
    OneMore([], Empty, Shard(0, 0, [], 0, []));
    assert [] + [Empty] == [Empty];
    OneMore([Empty], Write(n), Shard(0, 0, [], 1, []));
    assert [Empty] + [Write(n)] == [Empty, Write(n)];
    OneMore([Empty, Write(n)], Zero, Shard(n, n, [], 1, []));
    assert [Empty, Write(n)] + [Zero] == [Empty, Write(n), Zero];
  }

  // ------------------------------------------------------------------ machine words

  /** The counter is a machine word: it wraps around instead of going below zero. */
  const WORDS: int := 0x1_0000_0000_0000_0000

  function Counter(s: Shard): nat {
    s.bytes % WORDS
  }

  /** As long as less than a word's worth of bytes is at stake, the word is the size exactly
      when the number it stands for is. */
  lemma WordIsExactIff(s: Shard)
    requires s.size < WORDS && 0 - WORDS < s.bytes - s.size < WORDS
    ensures Counter(s) == s.size <==> s.bytes == s.size
  {
  }

  /** After the restore between, the word is huge. */
  lemma LostBytesWrapAround(n: nat)
    requires 0 < n < WORDS
    ensures var run := [Take, Write(n), Remove(n), Restore(0), CountOff(0)];
            After(run).Some? && After(run).value.size == 0 && Counter(After(run).value) == WORDS - n
  {
    RestoreBetweenLosesBytes(n);
  }
}
