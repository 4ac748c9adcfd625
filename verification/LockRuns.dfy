/** Whole runs of the lock protocol, from a store at rest with every thread at its start:
    what a finished snapshot is, that no restore or part of a batch is seen by halves or
    lost, and that every run gets to its end. */
module LockRuns {
  import opened FlatMaps
  import opened ShardedStore
  import opened LockProtocol

  // ------------------------------------------------------------------------- runs

  predicate AtStart(th: Thread) {
    && WellIndexed(th)
    && match th
       case Writer(_, k, w) => k == 0 && w.Waiting?
       case Snapshotter(s) => s == ReadLocking(0)
       case Restorer(_, r) => r == WriteLocking(0)
  }

  ghost predicate Start(init: seq<NsMap>, s: State) {
    && |init| == |s.cells| == SHARDS
    && (forall i :: 0 <= i < SHARDS ==> s.cells[i] == Cell(init[i], Size(init[i]), []))
    && (forall t :: 0 <= t < |s.threads| ==> AtStart(s.threads[t]))
  }

  /** `run[j + 1]` is one step of thread `who[j]` after `run[j]`. */
  ghost predicate Run(init: seq<NsMap>, run: seq<State>, who: seq<nat>) {
    && |run| == |who| + 1
    && Start(init, run[0])
    && (forall j :: 0 <= j < |who| ==> Step(run[j], who[j], run[j + 1]))
  }

  lemma StartHasInv(init: seq<NsMap>, s: State)
    requires Start(init, s)
    ensures Inv(init, s)
  {
    forall t, i: nat | 0 <= t < |s.threads|
      ensures !HoldsWrite(s.threads[t], i)
    {
      assert AtStart(s.threads[t]);
    }
    forall i | 0 <= i < SHARDS ensures CellOk(s.threads, i, init[i], s.cells[i]) {
    }
    forall t | 0 <= t < |s.threads| ensures WellIndexed(s.threads[t]) && SeenOk(s.threads[t], init, s.cells) {
      assert AtStart(s.threads[t]);
    }
  }

  lemma {:induction false} RunKeepsInv(init: seq<NsMap>, run: seq<State>, who: seq<nat>)
    requires Run(init, run, who)
    ensures Inv(init, run[|who|])
    decreases |who|
  {
    if |who| == 0 {
      StartHasInv(init, run[0]);
    } else {
      var n := |who| - 1;
      assert Run(init, run[..n + 1], who[..n]);
      RunKeepsInv(init, run[..n + 1], who[..n]);
      StepKeepsInv(init, run[n], who[n], run[n + 1]);
    }
  }

  // -------------------------------------------------- a snapshot is one instant

  /** The shards a snapshot claims to have seen. */
  function SeenBy(s: SnapshotPhase): seq<Cell> {
    match s
    case ReadLocking(_) => []
    case Cloning(_, at) => at
    case Loading(_, _, at) => at
    case ReadUnlocking(_, _, _, at) => at
  }

  /** State `j` is one in which thread `t`, already in its snapshot and not yet past its
      locks, finds the shards as `at`. */
  predicate InstantOf(run: seq<State>, j: nat, t: nat, at: seq<Cell>) {
    && j < |run| && t < |run[j].threads|
    && run[j].threads[t] == Snapshotter(ReadLocking(SHARDS - 1))
    && run[j].cells == at
  }

  ghost predicate HasInstant(run: seq<State>, t: nat, at: seq<Cell>) {
    exists j: nat :: InstantOf(run, j, t, at)
  }

  /** Past its read locks, a snapshot has seen its shards. */
  predicate HasSeen(th: Thread) {
    th.Snapshotter? && !th.s.ReadLocking?
  }

  lemma MoveSeesNow(th: Thread, cells: seq<Cell>, t: nat)
    requires |cells| == SHARDS && WellIndexed(th) && !Done(th)
    ensures var th' := Move(th, cells, t).0;
            HasSeen(th') ==> if HasSeen(th) then SeenBy(th'.s) == SeenBy(th.s)
                             else th == Snapshotter(ReadLocking(SHARDS - 1)) && SeenBy(th'.s) == cells
  {
  }

  lemma StepHasInstant(run: seq<State>, who: nat, s': State, t: nat)
    requires |run| > 0 && Step(run[|run| - 1], who, s')
    requires t < |s'.threads| && HasSeen(s'.threads[t])
    requires HasSeen(run[|run| - 1].threads[t]) ==> HasInstant(run, t, SeenBy(run[|run| - 1].threads[t].s))
    ensures HasInstant(run + [s'], t, SeenBy(s'.threads[t].s))
  {
    var n := |run| - 1;
    var s := run[n];
    var at := SeenBy(s'.threads[t].s);
    if t == who {
      MoveSeesNow(s.threads[t], s.cells, t);
    }
    if HasSeen(s.threads[t]) {
      var j: nat :| InstantOf(run, j, t, at);
      assert InstantOf(run + [s'], j, t, at);
    } else {
      assert InstantOf(run + [s'], n, t, at);
    }
  }

  lemma {:induction false} SeenIsAnInstant(init: seq<NsMap>, run: seq<State>, who: seq<nat>, t: nat)
    requires Run(init, run, who) && t < |run[|who|].threads| && HasSeen(run[|who|].threads[t])
    ensures HasInstant(run, t, SeenBy(run[|who|].threads[t].s))
    decreases |who|
  {
    if |who| > 0 {
      var n := |who| - 1;
      var before := run[..n + 1];
      assert Run(init, before, who[..n]);
      assert |run[n].threads| == |run[n + 1].threads|;
      if HasSeen(run[n].threads[t]) {
        SeenIsAnInstant(init, before, who[..n], t);
      }
      StepHasInstant(before, who[n], run[n + 1], t);
      assert before + [run[n + 1]] == run;
    }
  }

  /** A finished snapshot holds exactly the shards of one single state of the run, taken
      while the snapshot was under way; in that state no batch was half applied to a shard
      and no restore to some shards only, and the counters it carries are the sizes of the
      contents it carries. */
  lemma SnapshotIsOneInstant(init: seq<NsMap>, run: seq<State>, who: seq<nat>, t: nat) returns (j: nat)
    requires Run(init, run, who) && t < |run[|who|].threads|
    requires HasSeen(run[|who|].threads[t]) && Done(run[|who|].threads[t])
    ensures j <= |who| && InstantOf(run, j, t, run[j].cells) && RestoresAgree(run[j])
    ensures var snapshot := run[|who|].threads[t].s;
            && |snapshot.copied| == |snapshot.loaded| == |run[j].cells| == |init| == SHARDS
            && forall i :: 0 <= i < SHARDS ==>
                 && snapshot.copied[i] == run[j].cells[i].m == Replay(init[i], run[j].cells[i].log)
                 && snapshot.loaded[i] == run[j].cells[i].bytes == Size(snapshot.copied[i])
  {
    RunKeepsInv(init, run, who);
    SeenIsAnInstant(init, run, who, t);
    var snapshot := run[|who|].threads[t].s;
    assert SeenOk(run[|who|].threads[t], init, run[|who|].cells);
    j :| InstantOf(run, j, t, SeenBy(snapshot));
    assert Run(init, run[..j + 1], who[..j]);
    RestoresAreAtomic(init, run[..j + 1], who[..j]);
    assert AllWhole(init, snapshot.at);
    forall i | 0 <= i < SHARDS
      ensures snapshot.copied[i] == run[j].cells[i].m == Replay(init[i], run[j].cells[i].log)
      ensures snapshot.loaded[i] == run[j].cells[i].bytes == Size(snapshot.copied[i])
    {
      assert WholeCell(init[i], snapshot.at[i]);
    }
  }

  // ---------------------------------------------------------- restores are atomic

  /** The restores a shard went through, oldest first. */
  function Restores(log: seq<Whole>): seq<nat> {
    if log == [] then []
    else
      var last := log[|log| - 1];
      Restores(log[..|log| - 1]) + if last.WholeRestore? then [last.who] else []
  }

  ghost predicate RestoresAgree(s: State) {
    forall i, k :: 0 <= i < |s.cells| && 0 <= k < |s.cells| ==> Restores(s.cells[i].log) == Restores(s.cells[k].log)
  }

  lemma RestoresAfter(log: seq<Whole>, w: Whole)
    ensures Restores(log + [w]) == Restores(log) + if w.WholeRestore? then [w.who] else []
  {
    assert (log + [w])[..|log|] == log;
  }

  lemma StepKeepsRestoresAgree(s: State, t: nat, s': State)
    requires RestoresAgree(s) && Step(s, t, s')
    ensures RestoresAgree(s')
  {
    var th := s.threads[t];
    var ends := th.Restorer? && th.r.Replacing? && th.r.k == SHARDS;
    forall i | 0 <= i < SHARDS
      ensures Restores(s'.cells[i].log) == Restores(s.cells[i].log) + if ends then [t] else []
    {
      if ends {
        RestoresAfter(s.cells[i].log, WholeRestore(t, th.target[i]));
      } else if th.Writer? {
        RestoresAfter(s.cells[i].log, WholePart(th.parts[th.k].muts));
      }
    }
  }

  /** Whatever the state of a run, every shard went through the same restores in the same
      order. */
  lemma {:induction false} RestoresAreAtomic(init: seq<NsMap>, run: seq<State>, who: seq<nat>)
    requires Run(init, run, who)
    ensures RestoresAgree(run[|who|])
    decreases |who|
  {
    if |who| > 0 {
      var n := |who| - 1;
      assert Run(init, run[..n + 1], who[..n]);
      RestoresAreAtomic(init, run[..n + 1], who[..n]);
      StepKeepsRestoresAgree(run[n], who[n], run[n + 1]);
    }
  }

  // ------------------------------------------------ every part is applied, once

  /** The parts for shard `i` among the first `n` of a batch. */
  ghost function PartsAt(parts: seq<Part>, i: nat, n: nat): multiset<seq<Mut>>
    requires n <= |parts|
  {
    if n == 0 then multiset{}
    else PartsAt(parts, i, n - 1) + if parts[n - 1].shard == i then multiset{parts[n - 1].muts} else multiset{}
  }

  /** The parts for shard `i` a thread is through with. */
  ghost function Applied(th: Thread, i: nat): multiset<seq<Mut>> {
    if th.Writer? && th.k <= |th.parts| then
      PartsAt(th.parts, i, if th.w.Counted? && th.k < |th.parts| then th.k + 1 else th.k)
    else multiset{}
  }

  ghost function AppliedByAll(threads: seq<Thread>, i: nat): multiset<seq<Mut>> {
    if threads == [] then multiset{}
    else AppliedByAll(threads[..|threads| - 1], i) + Applied(threads[|threads| - 1], i)
  }

  ghost function PartsIn(log: seq<Whole>): multiset<seq<Mut>> {
    if log == [] then multiset{}
    else
      var last := log[|log| - 1];
      PartsIn(log[..|log| - 1]) + if last.WholePart? then multiset{last.muts} else multiset{}
  }

  ghost predicate NothingLost(s: State) {
    forall i :: 0 <= i < |s.cells| ==> PartsIn(s.cells[i].log) == AppliedByAll(s.threads, i)
  }

  lemma PartsAfter(log: seq<Whole>, w: Whole)
    ensures PartsIn(log + [w]) == PartsIn(log) + if w.WholePart? then multiset{w.muts} else multiset{}
  {
    assert (log + [w])[..|log|] == log;
  }

  lemma {:induction false} OneThreadAppliedMore(threads: seq<Thread>, t: nat, th': Thread, i: nat, more: multiset<seq<Mut>>)
    requires t < |threads| && Applied(th', i) == Applied(threads[t], i) + more
    ensures AppliedByAll(threads[t := th'], i) == AppliedByAll(threads, i) + more
    decreases |threads|
  {
    var n := |threads| - 1;
    var threads' := threads[t := th'];
    if t == n {
      assert threads'[..n] == threads[..n];
    } else {
      assert threads'[..n] == threads[..n][t := th'];
      OneThreadAppliedMore(threads[..n], t, th', i, more);
    }
  }

  /** The parts for shard `i` that a move of `th` completes. */
  ghost function Completes(th: Thread, i: nat): multiset<seq<Mut>>
    requires WellIndexed(th)
  {
    if th.Writer? && th.w.Inside? && th.w.n == |th.parts[th.k].muts| && th.parts[th.k].shard == i
    then multiset{th.parts[th.k].muts} else multiset{}
  }

  lemma MoveApplies(th: Thread, cells: seq<Cell>, t: nat, i: nat)
    requires |cells| == SHARDS && WellIndexed(th) && !Done(th)
    ensures Applied(Move(th, cells, t).0, i) == Applied(th, i) + Completes(th, i)
  {
  }

  lemma WriterLogs(parts: seq<Part>, k: nat, w: WriterPhase, cells: seq<Cell>, i: nat)
    requires |cells| == SHARDS && WellIndexed(Writer(parts, k, w)) && k < |parts| && i < SHARDS
    ensures |MoveWriter(parts, k, w, cells).1| == SHARDS
    ensures PartsIn(MoveWriter(parts, k, w, cells).1[i].log) == PartsIn(cells[i].log) + Completes(Writer(parts, k, w), i)
  {
    if w.Inside? && w.n == |parts[k].muts| && i == parts[k].shard {
      PartsAfter(cells[i].log, WholePart(parts[k].muts));
    }
  }

  lemma RestoreLogs(target: seq<NsMap>, r: RestorePhase, cells: seq<Cell>, t: nat, i: nat)
    requires |cells| == SHARDS && WellIndexed(Restorer(target, r)) && !Done(Restorer(target, r)) && i < SHARDS
    ensures |MoveRestore(target, r, cells, t).1| == SHARDS
    ensures PartsIn(MoveRestore(target, r, cells, t).1[i].log) == PartsIn(cells[i].log)
  {
    if r == Replacing(SHARDS) {
      PartsAfter(cells[i].log, WholeRestore(t, target[i]));
    }
  }

  lemma MoveLogs(th: Thread, cells: seq<Cell>, t: nat, i: nat)
    requires |cells| == SHARDS && WellIndexed(th) && !Done(th) && i < SHARDS
    ensures |Move(th, cells, t).1| == SHARDS
    ensures PartsIn(Move(th, cells, t).1[i].log) == PartsIn(cells[i].log) + Completes(th, i)
  {
    match th
    case Writer(parts, k, w) => WriterLogs(parts, k, w, cells, i);
    case Restorer(target, r) => RestoreLogs(target, r, cells, t, i);
    case Snapshotter(_) =>
  }

  /** One move, seen from shard `i`. */
  lemma MoveLosesNothing(threads: seq<Thread>, cells: seq<Cell>, t: nat, i: nat, th': Thread, cells': seq<Cell>)
    requires t < |threads| && |cells| == SHARDS && i < SHARDS && WellIndexed(threads[t]) && !Done(threads[t])
    requires (th', cells') == Move(threads[t], cells, t) && |cells'| == SHARDS
    requires PartsIn(cells[i].log) == AppliedByAll(threads, i)
    ensures PartsIn(cells'[i].log) == AppliedByAll(threads[t := th'], i)
  {
    var th := threads[t];
    MoveApplies(th, cells, t, i);
    MoveLogs(th, cells, t, i);
    OneThreadAppliedMore(threads, t, th', i, Completes(th, i));
  }

  lemma StepLosesNothing(s: State, t: nat, s': State)
    requires NothingLost(s) && Step(s, t, s')
    ensures NothingLost(s')
  {
    MoveLogs(s.threads[t], s.cells, t, 0);
    var th' := s'.threads[t];
    forall i: nat | i < SHARDS ensures PartsIn(s'.cells[i].log) == AppliedByAll(s'.threads, i) {
      MoveLosesNothing(s.threads, s.cells, t, i, th', s'.cells);
    }
  }

  lemma {:induction false} StartAppliedNothing(threads: seq<Thread>, i: nat)
    requires forall t :: 0 <= t < |threads| ==> AtStart(threads[t])
    ensures AppliedByAll(threads, i) == multiset{}
  {
    if threads != [] {
      assert AtStart(threads[|threads| - 1]);
      StartAppliedNothing(threads[..|threads| - 1], i);
    }
  }

  /** Whatever the state of a run, a shard went through exactly the parts its writers are
      through with, each as often as it was written: none is lost, none applied twice. */
  lemma {:induction false} EveryPartIsAppliedOnce(init: seq<NsMap>, run: seq<State>, who: seq<nat>)
    requires Run(init, run, who)
    ensures NothingLost(run[|who|])
    decreases |who|
  {
    if |who| == 0 {
      forall i | 0 <= i < SHARDS ensures PartsIn(run[0].cells[i].log) == AppliedByAll(run[0].threads, i) {
        StartAppliedNothing(run[0].threads, i);
      }
    } else {
      var n := |who| - 1;
      assert Run(init, run[..n + 1], who[..n]);
      EveryPartIsAppliedOnce(init, run[..n + 1], who[..n]);
      StepLosesNothing(run[n], who[n], run[n + 1]);
    }
  }

  // ----------------------------------------------------------- no state is stuck

  /** What a thread waits for is granted, even by locks that let waiting writers first. */
  ghost predicate GrantedFairly(s: State, t: nat)
    requires t < |s.threads|
  {
    match WaitsFor(s.threads[t])
    case Nothing => true
    case ToRead(i) => CanReadFairly(s, t, i)
    case ToWrite(i) => CanWrite(s, t, i)
  }

  /** The number of the lock a thread waits for. */
  function Wanted(th: Thread): nat {
    match WaitsFor(th)
    case Nothing => 0
    case ToRead(i) => i
    case ToWrite(i) => i
  }

  /** Locks are taken in ascending order: a thread that waits holds only lower ones, and a
      thread that is done holds none. */
  lemma HoldsOnlyLower(th: Thread, i: nat)
    requires WellIndexed(th) && (HoldsWrite(th, i) || HoldsRead(th, i))
    ensures !Done(th) && (WaitsFor(th) != Nothing ==> i < Wanted(th))
  {
  }

  /** Among threads that all wait, one that waits for the last lock. */
  lemma {:induction false} LastWaiter(threads: seq<Thread>) returns (t: nat)
    requires exists u :: 0 <= u < |threads| && !Done(threads[u])
    ensures t < |threads| && !Done(threads[t])
    ensures forall u :: 0 <= u < |threads| && !Done(threads[u]) ==> Wanted(threads[u]) <= Wanted(threads[t])
  {
    var n := |threads| - 1;
    if exists u :: 0 <= u < n && !Done(threads[u]) {
      var u :| 0 <= u < n && !Done(threads[u]);
      assert !Done(threads[..n][u]);
      t := LastWaiter(threads[..n]);
      forall v | 0 <= v < n && !Done(threads[v]) ensures Wanted(threads[v]) <= Wanted(threads[t]) {
        assert threads[..n][v] == threads[v];
      }
      if !Done(threads[n]) && Wanted(threads[n]) > Wanted(threads[t]) {
        t := n;
      }
    } else {
      t := n;
    }
  }

  /** In a state that keeps the invariant, not all unfinished threads wait for one another. */
  lemma SomeoneIsGranted(init: seq<NsMap>, s: State) returns (t: nat)
    requires Inv(init, s)
    requires exists u :: 0 <= u < |s.threads| && !Done(s.threads[u])
    ensures t < |s.threads| && !Done(s.threads[t]) && GrantedFairly(s, t)
  {
    if u: nat :| u < |s.threads| && !Done(s.threads[u]) && WaitsFor(s.threads[u]) == Nothing {
      t := u;
      return;
    }
    t := LastWaiter(s.threads);
    var i := Wanted(s.threads[t]);
    forall u | 0 <= u < |s.threads| ensures !HoldsWrite(s.threads[u], i) && !HoldsRead(s.threads[u], i) {
      if HoldsWrite(s.threads[u], i) || HoldsRead(s.threads[u], i) {
        HoldsOnlyLower(s.threads[u], i);
        assert false;
      }
    }
    if u: nat :| u < |s.threads| && WaitsFor(s.threads[u]) == ToWrite(i) {
      t := u;
    }
  }

  /** In no reachable state are the threads deadlocked: as long as one is not done, some
      thread has a step, even where waiting writers go first. */
  lemma NoDeadlock(init: seq<NsMap>, run: seq<State>, who: seq<nat>) returns (t: nat, s': State)
    requires Run(init, run, who)
    requires exists u :: 0 <= u < |run[|who|].threads| && !Done(run[|who|].threads[u])
    ensures t < |run[|who|].threads| && GrantedFairly(run[|who|], t) && Step(run[|who|], t, s')
  {
    var s := run[|who|];
    RunKeepsInv(init, run, who);
    t := SomeoneIsGranted(init, s);
    var (th', cells') := Move(s.threads[t], s.cells, t);
    s' := State(cells', s.threads[t := th']);
  }

  // ---------------------------------------------------------- every run ends

  function PartsLeft(parts: seq<Part>, k: nat): nat
    requires k <= |parts|
    decreases |parts| - k
  {
    if k == |parts| then 0 else |parts[k].muts| + 3 + PartsLeft(parts, k + 1)
  }

  /** How many steps a thread still has to take. */
  function StepsLeft(th: Thread): nat
    requires WellIndexed(th)
  {
    match th
    case Writer(parts, k, w) =>
      if k == |parts| then 0
      else
        (match w
         case Waiting => |parts[k].muts| + 3
         case Inside(n, _) => |parts[k].muts| - n + 2
         case Counted => 1) + PartsLeft(parts, k + 1)
    case Snapshotter(s) =>
      (match s
       case ReadLocking(k) => (SHARDS - k) + 3 * SHARDS + 2
       case Cloning(copied, _) => (SHARDS - |copied|) + 2 * SHARDS + 2
       case Loading(_, loaded, _) => (SHARDS - |loaded|) + SHARDS + 1
       case ReadUnlocking(k, _, _, _) => SHARDS - k)
    case Restorer(_, r) =>
      (match r
       case WriteLocking(k) => (SHARDS - k) + 2 * SHARDS + 1
       case Replacing(k) => (SHARDS - k) + SHARDS + 1
       case WriteUnlocking(k) => SHARDS - k)
  }

  ghost predicate AllIndexed(threads: seq<Thread>) {
    forall t :: 0 <= t < |threads| ==> WellIndexed(threads[t])
  }

  function AllStepsLeft(threads: seq<Thread>): nat
    requires forall t :: 0 <= t < |threads| ==> WellIndexed(threads[t])
  {
    if threads == [] then 0 else AllStepsLeft(threads[..|threads| - 1]) + StepsLeft(threads[|threads| - 1])
  }

  lemma {:induction false} OneThreadStepped(threads: seq<Thread>, t: nat, th': Thread)
    requires AllIndexed(threads) && t < |threads| && WellIndexed(th')
    requires StepsLeft(threads[t]) == StepsLeft(th') + 1
    ensures AllIndexed(threads[t := th'])
    ensures AllStepsLeft(threads) == AllStepsLeft(threads[t := th']) + 1
    decreases |threads|
  {
    var n := |threads| - 1;
    var threads' := threads[t := th'];
    if t == n {
      assert threads'[..n] == threads[..n];
    } else {
      assert threads'[..n] == threads[..n][t := th'];
      OneThreadStepped(threads[..n], t, th');
    }
  }

  lemma {:induction false} NoStepsLeft(threads: seq<Thread>)
    requires AllIndexed(threads)
    ensures AllStepsLeft(threads) == 0 <==> forall t :: 0 <= t < |threads| ==> Done(threads[t])
  {
    if threads != [] {
      var n := |threads| - 1;
      NoStepsLeft(threads[..n]);
      assert StepsLeft(threads[n]) == 0 <==> Done(threads[n]);
      if forall t :: 0 <= t < n ==> Done(threads[..n][t]) {
        forall t | 0 <= t < n ensures Done(threads[t]) {
          assert Done(threads[..n][t]);
        }
      }
    }
  }

  /** Every step brings its thread one step nearer to its end. */
  lemma MoveCountsDown(th: Thread, cells: seq<Cell>, t: nat)
    requires |cells| == SHARDS && WellIndexed(th) && !Done(th)
    ensures WellIndexed(Move(th, cells, t).0)
    ensures StepsLeft(th) == StepsLeft(Move(th, cells, t).0) + 1
  {
  }

  lemma StepsCountDown(s: State, t: nat, s': State)
    requires AllIndexed(s.threads) && Step(s, t, s')
    ensures AllIndexed(s'.threads)
    ensures AllStepsLeft(s.threads) == AllStepsLeft(s'.threads) + 1
  {
    MoveCountsDown(s.threads[t], s.cells, t);
    OneThreadStepped(s.threads, t, s'.threads[t]);
  }

  /** However the threads are scheduled, a run takes as many steps as its threads had to
      take less those still to take; with `NoDeadlock`, it can always be driven to the
      state in which every thread is done, and it cannot go on any longer. */
  lemma {:induction false} RunsFinish(init: seq<NsMap>, run: seq<State>, who: seq<nat>)
    requires Run(init, run, who)
    ensures AllIndexed(run[0].threads) && AllIndexed(run[|who|].threads)
    ensures AllStepsLeft(run[0].threads) == |who| + AllStepsLeft(run[|who|].threads)
    ensures |who| == AllStepsLeft(run[0].threads) <==> forall t :: 0 <= t < |run[|who|].threads| ==> Done(run[|who|].threads[t])
    decreases |who|
  {
    RunKeepsInv(init, run, who);
    NoStepsLeft(run[|who|].threads);
    if |who| == 0 {
    } else {
      var n := |who| - 1;
      assert Run(init, run[..n + 1], who[..n]);
      RunsFinish(init, run[..n + 1], who[..n]);
      StepsCountDown(run[n], who[n], run[n + 1]);
    }
  }
}
