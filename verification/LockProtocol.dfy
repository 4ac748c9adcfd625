/** Threads working on the sharded store at the same time, lock by lock.

    Writers (set, delete, set_many, delete_many) take one write lock after the other and
    hold one at a time; a snapshot takes every read lock, a restore every write lock, in
    ascending order. Each shard carries, besides its map and byte counter, the log of
    the whole parts and restores applied to it. */
module LockProtocol {
  import opened FlatMaps
  import opened ShardedStore

  // ---------------------------------------------------------------------- threads

  datatype Mut = Insert(e: Entry) | Erase(p: Pair)

  /** One shard's part of a batch. */
  datatype Part = Part(shard: nat, muts: seq<Mut>)

  datatype WriterPhase =
    | Waiting
    | Inside(n: nat, start: NsMap)   // `n` changes made to a shard that held `start`
    | Counted                        // all changes made, the byte counter moved

  datatype SnapshotPhase =
    | ReadLocking(k: nat)
    | Cloning(copied: seq<NsMap>, at: seq<Cell>)
    | Loading(copied: seq<NsMap>, loaded: seq<int>, at: seq<Cell>)
    | ReadUnlocking(k: nat, copied: seq<NsMap>, loaded: seq<int>, at: seq<Cell>)

  datatype RestorePhase =
    | WriteLocking(k: nat)
    | Replacing(k: nat)
    | WriteUnlocking(k: nat)

  datatype Thread =
    | Writer(parts: seq<Part>, k: nat, w: WriterPhase)
    | Snapshotter(s: SnapshotPhase)
    | Restorer(target: seq<NsMap>, r: RestorePhase)

  /** What was applied to a shard as a whole. */
  datatype Whole = WholePart(muts: seq<Mut>) | WholeRestore(who: nat, m: NsMap)

  datatype Cell = Cell(m: NsMap, bytes: int, log: seq<Whole>)

  datatype State = State(cells: seq<Cell>, threads: seq<Thread>)

  // ------------------------------------------------------------------------ locks

  predicate HoldsWrite(th: Thread, i: nat) {
    match th
    case Writer(parts, k, w) => !w.Waiting? && k < |parts| && parts[k].shard == i
    case Snapshotter(_) => false
    case Restorer(_, r) =>
      (match r
       case WriteLocking(k) => i < k
       case Replacing(_) => i < SHARDS
       case WriteUnlocking(k) => k <= i < SHARDS)
  }

  predicate HoldsRead(th: Thread, i: nat) {
    th.Snapshotter? &&
    match th.s
    case ReadLocking(k) => i < k
    case ReadUnlocking(k, _, _, _) => k <= i < SHARDS
    case _ => i < SHARDS
  }

  /** The lock a thread asks for before it can go on. */
  datatype Want = Nothing | ToRead(i: nat) | ToWrite(i: nat)

  function WaitsFor(th: Thread): Want {
    match th
    case Writer(parts, k, w) => if w.Waiting? && k < |parts| then ToWrite(parts[k].shard) else Nothing
    case Snapshotter(s) => if s.ReadLocking? then ToRead(s.k) else Nothing
    case Restorer(_, r) => if r.WriteLocking? then ToWrite(r.k) else Nothing
  }

  predicate Done(th: Thread) {
    match th
    case Writer(parts, k, _) => k >= |parts|
    case Snapshotter(s) => s.ReadUnlocking? && s.k >= SHARDS
    case Restorer(_, r) => r.WriteUnlocking? && r.k >= SHARDS
  }

  /** A read lock is granted while nobody writes. */
  ghost predicate CanRead(s: State, t: nat, i: nat) {
    forall u :: 0 <= u < |s.threads| && u != t ==> !HoldsWrite(s.threads[u], i)
  }

  /** A write lock is granted while nobody else holds it. */
  ghost predicate CanWrite(s: State, t: nat, i: nat) {
    forall u :: 0 <= u < |s.threads| && u != t ==> !HoldsWrite(s.threads[u], i) && !HoldsRead(s.threads[u], i)
  }

  /** A lock that also keeps readers out while a writer waits. */
  ghost predicate CanReadFairly(s: State, t: nat, i: nat) {
    CanRead(s, t, i) && forall u :: 0 <= u < |s.threads| && u != t ==> WaitsFor(s.threads[u]) != ToWrite(i)
  }

  // ------------------------------------------------------------------------ effects

  function ApplyMut(m: NsMap, mut: Mut): NsMap {
    match mut
    case Insert(e) => Put(m, e)
    case Erase(p) => Remove(m, p)
  }

  function ApplyAll(m: NsMap, muts: seq<Mut>): NsMap {
    if muts == [] then m else ApplyMut(ApplyAll(m, muts[..|muts| - 1]), muts[|muts| - 1])
  }

  /** A shard's contents, from what it started with and what was applied to it whole. */
  function Replay(init: NsMap, log: seq<Whole>): NsMap {
    if log == [] then init
    else match log[|log| - 1]
      case WholePart(muts) => ApplyAll(Replay(init, log[..|log| - 1]), muts)
      case WholeRestore(_, m) => m
  }

  ghost function Size(m: NsMap): nat {
    SumLen(Flatten(m))
  }

  // ------------------------------------------------------------------------- steps

  /** A step of thread `t`: what it becomes, and what the shards become. A waiting thread
      steps only when its lock is granted. */
  ghost predicate Step(s: State, t: nat, s': State) {
    && t < |s.threads| && !Done(s.threads[t])
    && |s.cells| == SHARDS
    && Granted(s, t)
    && WellIndexed(s.threads[t])
    && var (th', cells') := Move(s.threads[t], s.cells, t);
       s' == State(cells', s.threads[t := th'])
  }

  ghost predicate Granted(s: State, t: nat)
    requires t < |s.threads|
  {
    match WaitsFor(s.threads[t])
    case Nothing => true
    case ToRead(i) => CanRead(s, t, i)
    case ToWrite(i) => CanWrite(s, t, i)
  }

  /** Counters and copies of a thread stay within the sixteen shards. */
  predicate WellIndexed(th: Thread) {
    match th
    case Writer(parts, k, w) =>
      && k <= |parts|
      && (forall j :: 0 <= j < |parts| ==> parts[j].shard < SHARDS)
      && (w.Inside? ==> k < |parts| && w.n <= |parts[k].muts|)
    case Snapshotter(s) =>
      (match s
       case ReadLocking(k) => k < SHARDS
       case Cloning(copied, at) => |copied| <= SHARDS && |at| == SHARDS
       case Loading(copied, loaded, at) => |copied| == |at| == SHARDS && |loaded| <= SHARDS
       case ReadUnlocking(k, copied, loaded, at) => k <= SHARDS && |copied| == |loaded| == |at| == SHARDS)
    case Restorer(target, r) =>
      && |target| == SHARDS
      && (match r
          case WriteLocking(k) => k < SHARDS
          case Replacing(k) => k <= SHARDS
          case WriteUnlocking(k) => k <= SHARDS)
  }

  ghost function Move(th: Thread, cells: seq<Cell>, t: nat): (Thread, seq<Cell>)
    requires |cells| == SHARDS && WellIndexed(th) && !Done(th)
  {
    match th
    case Writer(parts, k, w) => MoveWriter(parts, k, w, cells)
    case Snapshotter(s) => (Snapshotter(MoveSnapshot(s, cells)), cells)
    case Restorer(target, r) =>
      var (r', cells') := MoveRestore(target, r, cells, t);
      (Restorer(target, r'), cells')
  }

  /** A writer: take the lock, make the changes one by one, move the counter by the
      difference, release the lock. */
  ghost function MoveWriter(parts: seq<Part>, k: nat, w: WriterPhase, cells: seq<Cell>): (Thread, seq<Cell>)
    requires |cells| == SHARDS && k < |parts| && parts[k].shard < SHARDS
    requires w.Inside? ==> w.n <= |parts[k].muts|
  {
    var i := parts[k].shard;
    match w
    case Waiting => (Writer(parts, k, Inside(0, cells[i].m)), cells)
    case Inside(n, start) =>
      if n < |parts[k].muts| then
        (Writer(parts, k, Inside(n + 1, start)), cells[i := cells[i].(m := ApplyMut(cells[i].m, parts[k].muts[n]))])
      else
        (Writer(parts, k, Counted),
         cells[i := Cell(cells[i].m, cells[i].bytes + Size(cells[i].m) - Size(start),
                         cells[i].log + [WholePart(parts[k].muts)])])
    case Counted => (Writer(parts, k + 1, Waiting), cells)
  }

  /** A snapshot: take every read lock, clone every shard, load every counter, release. */
  function MoveSnapshot(s: SnapshotPhase, cells: seq<Cell>): SnapshotPhase
    requires |cells| == SHARDS && WellIndexed(Snapshotter(s)) && !Done(Snapshotter(s))
  {
    match s
    case ReadLocking(k) => if k + 1 < SHARDS then ReadLocking(k + 1) else Cloning([], cells)
    case Cloning(copied, at) =>
      if |copied| < SHARDS then Cloning(copied + [cells[|copied|].m], at) else Loading(copied, [], at)
    case Loading(copied, loaded, at) =>
      if |loaded| < SHARDS then Loading(copied, loaded + [cells[|loaded|].bytes], at)
      else ReadUnlocking(0, copied, loaded, at)
    case ReadUnlocking(k, copied, loaded, at) => ReadUnlocking(k + 1, copied, loaded, at)
  }

  /** A restore: take every write lock, put every shard and counter back, release. */
  ghost function MoveRestore(target: seq<NsMap>, r: RestorePhase, cells: seq<Cell>, t: nat): (RestorePhase, seq<Cell>)
    requires |cells| == |target| == SHARDS && WellIndexed(Restorer(target, r)) && !Done(Restorer(target, r))
  {
    match r
    case WriteLocking(k) => (if k + 1 < SHARDS then WriteLocking(k + 1) else Replacing(0), cells)
    case Replacing(k) =>
      if k < SHARDS then (Replacing(k + 1), cells[k := Cell(target[k], Size(target[k]), cells[k].log)])
      else (WriteUnlocking(0), seq(SHARDS, i requires 0 <= i < SHARDS =>
              cells[i].(log := cells[i].log + [WholeRestore(t, target[i])])))
    case WriteUnlocking(k) => (WriteUnlocking(k + 1), cells)
  }

  // -------------------------------------------------------------------- invariants

  /** A shard nobody writes to: exactly what was applied to it whole, and its counter is
      its size. */
  ghost predicate WholeCell(init: NsMap, c: Cell) {
    c.m == Replay(init, c.log) && c.bytes == Size(c.m)
  }

  /** A shard in the hands of the thread that holds its write lock. */
  ghost predicate HeldCell(th: Thread, i: nat, init: NsMap, c: Cell) {
    match th
    case Writer(parts, k, w) =>
      (match w
       case Inside(n, start) =>
         && k < |parts| && n <= |parts[k].muts|
         && start == Replay(init, c.log)
         && c.m == ApplyAll(start, parts[k].muts[..n])
         && c.bytes == Size(start)
       case _ => WholeCell(init, c))
    case Restorer(target, r) =>
      if r.Replacing? && i < r.k then i < |target| && c.m == target[i] && c.bytes == Size(target[i])
      else WholeCell(init, c)
    case _ => false
  }

  ghost predicate CellOk(threads: seq<Thread>, i: nat, init: NsMap, c: Cell) {
    && ((forall t :: 0 <= t < |threads| ==> !HoldsWrite(threads[t], i)) ==> WholeCell(init, c))
    && (forall t :: 0 <= t < |threads| && HoldsWrite(threads[t], i) ==> HeldCell(threads[t], i, init, c))
  }

  predicate CopiedFrom(copied: seq<NsMap>, at: seq<Cell>) {
    |copied| <= |at| && forall i :: 0 <= i < |copied| ==> copied[i] == at[i].m
  }

  predicate LoadedFrom(loaded: seq<int>, at: seq<Cell>) {
    |loaded| <= |at| && forall i :: 0 <= i < |loaded| ==> loaded[i] == at[i].bytes
  }

  /** What a snapshot has seen: the shards as they were at one instant, all whole. While
      it holds its locks, they still are. */
  ghost predicate SeenOk(th: Thread, init: seq<NsMap>, cells: seq<Cell>)
    requires |init| == |cells| == SHARDS
  {
    th.Snapshotter? ==>
      match th.s
      case ReadLocking(_) => true
      case Cloning(copied, at) =>
        && at == cells && AllWhole(init, at)
        && CopiedFrom(copied, at)
      case Loading(copied, loaded, at) =>
        && at == cells && AllWhole(init, at)
        && |copied| == SHARDS && CopiedFrom(copied, at) && LoadedFrom(loaded, at)
      case ReadUnlocking(_, copied, loaded, at) =>
        && |at| == SHARDS && AllWhole(init, at)
        && |copied| == SHARDS && CopiedFrom(copied, at)
        && |loaded| == SHARDS && LoadedFrom(loaded, at)
  }

  ghost predicate AllWhole(init: seq<NsMap>, cells: seq<Cell>) {
    |init| == |cells| && forall i :: 0 <= i < |cells| ==> WholeCell(init[i], cells[i])
  }

  ghost predicate Exclusive(threads: seq<Thread>) {
    forall t, u, i :: 0 <= t < |threads| && 0 <= u < |threads| && t != u && HoldsWrite(threads[t], i)
      ==> !HoldsWrite(threads[u], i) && !HoldsRead(threads[u], i)
  }

  ghost predicate Inv(init: seq<NsMap>, s: State) {
    && |init| == |s.cells| == SHARDS
    && (forall t :: 0 <= t < |s.threads| ==> WellIndexed(s.threads[t]))
    && Exclusive(s.threads)
    && (forall i :: 0 <= i < SHARDS ==> CellOk(s.threads, i, init[i], s.cells[i]))
    && (forall t :: 0 <= t < |s.threads| ==> SeenOk(s.threads[t], init, s.cells))
  }

  // -------------------------------------------------------- one step, in general

  /** What a move must respect: it takes only locks that are granted, it changes only
      shards it has locked for writing, and it leaves them as its phase says. */
  ghost predicate Respects(init: seq<NsMap>, s: State, t: nat, th': Thread, cells': seq<Cell>)
    requires t < |s.threads| && |init| == |s.cells| == |cells'| == SHARDS
  {
    var th := s.threads[t];
    && WellIndexed(th')
    && (forall i: nat :: HoldsWrite(th', i) ==> HoldsWrite(th, i) || CanWrite(s, t, i))
    && (forall i: nat :: HoldsRead(th', i) ==> HoldsRead(th, i) || CanRead(s, t, i))
    && (forall i :: 0 <= i < SHARDS && cells'[i] != s.cells[i] ==> HoldsWrite(th, i))
    && (forall i :: 0 <= i < SHARDS && HoldsWrite(th', i) ==> HeldCell(th', i, init[i], cells'[i]))
    && (forall i :: 0 <= i < SHARDS && HoldsWrite(th, i) && !HoldsWrite(th', i) ==> WholeCell(init[i], cells'[i]))
    && SeenOk(th', init, cells')
  }

  lemma ExclusiveStays(init: seq<NsMap>, s: State, t: nat, th': Thread, cells': seq<Cell>)
    requires Inv(init, s) && t < |s.threads| && |cells'| == SHARDS && Respects(init, s, t, th', cells')
    ensures Exclusive(s.threads[t := th'])
  {
    var threads' := s.threads[t := th'];
    forall a, b, i | 0 <= a < |threads'| && 0 <= b < |threads'| && a != b && HoldsWrite(threads'[a], i)
      ensures !HoldsWrite(threads'[b], i) && !HoldsRead(threads'[b], i)
    {
      if a == t {
        assert HoldsWrite(s.threads[t], i) || CanWrite(s, t, i);
      } else if b == t {
        assert HoldsWrite(s.threads[a], i);
      }
    }
  }

  lemma CellStaysOk(init: seq<NsMap>, s: State, t: nat, th': Thread, cells': seq<Cell>, i: nat)
    requires Inv(init, s) && t < |s.threads| && |cells'| == SHARDS && Respects(init, s, t, th', cells') && i < SHARDS
    ensures CellOk(s.threads[t := th'], i, init[i], cells'[i])
  {
    var th, threads' := s.threads[t], s.threads[t := th'];
    assert CellOk(s.threads, i, init[i], s.cells[i]);
    forall u | 0 <= u < |threads'| && HoldsWrite(threads'[u], i)
      ensures HeldCell(threads'[u], i, init[i], cells'[i])
    {
      if u != t {
        assert HoldsWrite(s.threads[u], i);
        assert !HoldsWrite(th, i);
      }
    }
    if forall u :: 0 <= u < |threads'| ==> !HoldsWrite(threads'[u], i) {
      assert !HoldsWrite(threads'[t], i);
      if !HoldsWrite(th, i) {
        forall u | 0 <= u < |s.threads| ensures !HoldsWrite(s.threads[u], i) {
          if u != t { assert !HoldsWrite(threads'[u], i); }
        }
      }
    }
  }

  lemma SeenStaysOk(init: seq<NsMap>, s: State, t: nat, th': Thread, cells': seq<Cell>, u: nat)
    requires Inv(init, s) && t < |s.threads| && |cells'| == SHARDS && Respects(init, s, t, th', cells')
    requires u < |s.threads| && u != t
    ensures SeenOk(s.threads[u], init, cells')
  {
    var seen := s.threads[u];
    assert SeenOk(seen, init, s.cells);
    if seen.Snapshotter? && (seen.s.Cloning? || seen.s.Loading?) {
      forall i | 0 <= i < SHARDS ensures cells'[i] == s.cells[i] {
        assert HoldsRead(seen, i);
      }
      assert cells' == s.cells;
    }
  }

  lemma RespectingMoveKeepsInv(init: seq<NsMap>, s: State, t: nat, th': Thread, cells': seq<Cell>)
    requires Inv(init, s) && t < |s.threads| && |cells'| == SHARDS && Respects(init, s, t, th', cells')
    ensures Inv(init, State(cells', s.threads[t := th']))
  {
    ExclusiveStays(init, s, t, th', cells');
    forall i | 0 <= i < SHARDS ensures CellOk(s.threads[t := th'], i, init[i], cells'[i]) {
      CellStaysOk(init, s, t, th', cells', i);
    }
    forall u | 0 <= u < |s.threads| && u != t ensures SeenOk(s.threads[u], init, cells') {
      SeenStaysOk(init, s, t, th', cells', u);
    }
  }

  // --------------------------------------------------------- each move respects it

  lemma FreeCellIsWhole(init: seq<NsMap>, s: State, t: nat, i: nat)
    requires Inv(init, s) && t < |s.threads| && i < SHARDS
    requires CanRead(s, t, i) && !HoldsWrite(s.threads[t], i)
    ensures WholeCell(init[i], s.cells[i])
  {
    assert CellOk(s.threads, i, init[i], s.cells[i]);
    forall u | 0 <= u < |s.threads| ensures !HoldsWrite(s.threads[u], i) {
    }
  }

  /** What a writer's move must respect comes down to the one shard it is at. */
  lemma WriterMoveRespects(init: seq<NsMap>, s: State, t: nat, th': Thread, cells': seq<Cell>, i: nat)
    requires Inv(init, s) && t < |s.threads| && |cells'| == SHARDS && i < SHARDS
    requires s.threads[t].Writer? && th'.Writer? && WellIndexed(th')
    requires forall j: nat :: HoldsWrite(s.threads[t], j) || HoldsWrite(th', j) ==> j == i
    requires HoldsWrite(th', i) ==> HoldsWrite(s.threads[t], i) || CanWrite(s, t, i)
    requires cells' == s.cells || (HoldsWrite(s.threads[t], i) && cells' == s.cells[i := cells'[i]])
    requires if HoldsWrite(th', i) then HeldCell(th', i, init[i], cells'[i]) else WholeCell(init[i], cells'[i])
    ensures Respects(init, s, t, th', cells')
  {
  }

  lemma WriterEnters(init: seq<NsMap>, s: State, t: nat)
    requires Inv(init, s) && t < |s.threads| && s.threads[t].Writer? && !Done(s.threads[t]) && Granted(s, t)
    requires s.threads[t].w.Waiting?
    ensures var (th', cells') := Move(s.threads[t], s.cells, t);
            |cells'| == SHARDS && Respects(init, s, t, th', cells')
  {
    var th := s.threads[t];
    var (th', cells') := Move(th, s.cells, t);
    var i := th.parts[th.k].shard;
    assert CanWrite(s, t, i);
    FreeCellIsWhole(init, s, t, i);
    assert th.parts[th.k].muts[..0] == [];
    WriterMoveRespects(init, s, t, th', cells', i);
  }

  lemma WriterChanges(init: seq<NsMap>, s: State, t: nat)
    requires Inv(init, s) && t < |s.threads| && s.threads[t].Writer? && !Done(s.threads[t])
    requires s.threads[t].w.Inside? && s.threads[t].w.n < |s.threads[t].parts[s.threads[t].k].muts|
    ensures var (th', cells') := Move(s.threads[t], s.cells, t);
            |cells'| == SHARDS && Respects(init, s, t, th', cells')
  {
    var th := s.threads[t];
    var (th', cells') := Move(th, s.cells, t);
    var i, muts, n := th.parts[th.k].shard, th.parts[th.k].muts, th.w.n;
    assert CellOk(s.threads, i, init[i], s.cells[i]) && HoldsWrite(th, i);
    assert HeldCell(th, i, init[i], s.cells[i]);
    assert muts[..n + 1][..n] == muts[..n];
    WriterMoveRespects(init, s, t, th', cells', i);
  }

  lemma ReplayPart(init: NsMap, log: seq<Whole>, muts: seq<Mut>)
    ensures Replay(init, log + [WholePart(muts)]) == ApplyAll(Replay(init, log), muts)
  {
    assert (log + [WholePart(muts)])[..|log|] == log;
  }

  lemma WriterCounts(init: seq<NsMap>, s: State, t: nat)
    requires Inv(init, s) && t < |s.threads| && s.threads[t].Writer? && !Done(s.threads[t])
    requires s.threads[t].w.Inside? && s.threads[t].w.n == |s.threads[t].parts[s.threads[t].k].muts|
    ensures var (th', cells') := Move(s.threads[t], s.cells, t);
            |cells'| == SHARDS && Respects(init, s, t, th', cells')
  {
    var th := s.threads[t];
    var i, muts, c := th.parts[th.k].shard, th.parts[th.k].muts, s.cells[th.parts[th.k].shard];
    assert CellOk(s.threads, i, init[i], c) && HoldsWrite(th, i);
    assert HeldCell(th, i, init[i], c);
    var th' := Writer(th.parts, th.k, Counted);
    var c' := Cell(c.m, c.bytes + Size(c.m) - Size(th.w.start), c.log + [WholePart(muts)]);
    assert WholeCell(init[i], c') by {
      assert muts[..|muts|] == muts;
      ReplayPart(init[i], c.log, muts);
    }
    WriterMoveRespects(init, s, t, th', s.cells[i := c'], i);
  }

  lemma WriterLeaves(init: seq<NsMap>, s: State, t: nat)
    requires Inv(init, s) && t < |s.threads| && s.threads[t].Writer? && !Done(s.threads[t])
    requires s.threads[t].w.Counted?
    ensures var (th', cells') := Move(s.threads[t], s.cells, t);
            |cells'| == SHARDS && Respects(init, s, t, th', cells')
  {
    var th := s.threads[t];
    var (th', cells') := Move(th, s.cells, t);
    var i := th.parts[th.k].shard;
    assert CellOk(s.threads, i, init[i], s.cells[i]) && HoldsWrite(th, i);
    assert HeldCell(th, i, init[i], s.cells[i]);
    WriterMoveRespects(init, s, t, th', cells', i);
  }

  lemma WriterRespects(init: seq<NsMap>, s: State, t: nat)
    requires Inv(init, s) && t < |s.threads| && s.threads[t].Writer? && !Done(s.threads[t]) && Granted(s, t)
    ensures var (th', cells') := Move(s.threads[t], s.cells, t);
            |cells'| == SHARDS && Respects(init, s, t, th', cells')
  {
    var w := s.threads[t].w;
    if w.Waiting? {
      WriterEnters(init, s, t);
    } else if w.Counted? {
      WriterLeaves(init, s, t);
    } else if w.n < |s.threads[t].parts[s.threads[t].k].muts| {
      WriterChanges(init, s, t);
    } else {
      WriterCounts(init, s, t);
    }
  }

  lemma SnapshotMoveRespects(init: seq<NsMap>, s: State, t: nat, th': Thread)
    requires Inv(init, s) && t < |s.threads| && s.threads[t].Snapshotter? && th'.Snapshotter? && WellIndexed(th')
    requires forall i: nat :: HoldsRead(th', i) ==> HoldsRead(s.threads[t], i) || CanRead(s, t, i)
    requires SeenOk(th', init, s.cells)
    ensures Respects(init, s, t, th', s.cells)
  {
  }

  lemma SnapshotLocks(init: seq<NsMap>, s: State, t: nat, k: nat)
    requires Inv(init, s) && t < |s.threads| && k < SHARDS
    requires s.threads[t] == Snapshotter(ReadLocking(k)) && CanRead(s, t, k)
    ensures Respects(init, s, t, Snapshotter(MoveSnapshot(ReadLocking(k), s.cells)), s.cells)
  {
    var th := s.threads[t];
    if k + 1 == SHARDS {
      forall i: nat | i < SHARDS ensures WholeCell(init[i], s.cells[i]) {
        if i < k {
          assert HoldsRead(th, i);
        }
        assert CanRead(s, t, i);
        FreeCellIsWhole(init, s, t, i);
      }
    }
    SnapshotMoveRespects(init, s, t, Snapshotter(MoveSnapshot(ReadLocking(k), s.cells)));
  }

  lemma SnapshotStaysIndexed(s: SnapshotPhase, cells: seq<Cell>)
    requires |cells| == SHARDS && !s.ReadLocking? && WellIndexed(Snapshotter(s)) && !Done(Snapshotter(s))
    ensures WellIndexed(Snapshotter(MoveSnapshot(s, cells)))
    ensures forall i: nat :: HoldsRead(Snapshotter(MoveSnapshot(s, cells)), i) ==> HoldsRead(Snapshotter(s), i)
  {
  }

  lemma CopyOneMore(copied: seq<NsMap>, at: seq<Cell>)
    requires CopiedFrom(copied, at) && |copied| < |at|
    ensures CopiedFrom(copied + [at[|copied|].m], at)
  {
  }

  lemma LoadOneMore(loaded: seq<int>, at: seq<Cell>)
    requires LoadedFrom(loaded, at) && |loaded| < |at|
    ensures LoadedFrom(loaded + [at[|loaded|].bytes], at)
  {
  }

  lemma SnapshotSees(init: seq<NsMap>, s: SnapshotPhase, cells: seq<Cell>)
    requires |init| == |cells| == SHARDS && !s.ReadLocking?
    requires WellIndexed(Snapshotter(s)) && !Done(Snapshotter(s)) && SeenOk(Snapshotter(s), init, cells)
    ensures SeenOk(Snapshotter(MoveSnapshot(s, cells)), init, cells)
  {
    match s
    case Cloning(copied, at) =>
      if |copied| < SHARDS {
        CopyOneMore(copied, at);
      }
    case Loading(copied, loaded, at) =>
      if |loaded| < SHARDS {
        LoadOneMore(loaded, at);
      }
    case ReadUnlocking(_, _, _, _) =>
  }

  lemma SnapshotRespects(init: seq<NsMap>, s: State, t: nat)
    requires Inv(init, s) && t < |s.threads| && s.threads[t].Snapshotter? && !Done(s.threads[t]) && Granted(s, t)
    ensures var (th', cells') := Move(s.threads[t], s.cells, t);
            |cells'| == SHARDS && Respects(init, s, t, th', cells')
  {
    var phase := s.threads[t].s;
    if phase.ReadLocking? {
      SnapshotLocks(init, s, t, phase.k);
    } else {
      SnapshotStaysIndexed(phase, s.cells);
      SnapshotSees(init, phase, s.cells);
      SnapshotMoveRespects(init, s, t, Snapshotter(MoveSnapshot(phase, s.cells)));
    }
  }

  lemma RestoreRespects(init: seq<NsMap>, s: State, t: nat)
    requires Inv(init, s) && t < |s.threads| && s.threads[t].Restorer? && !Done(s.threads[t]) && Granted(s, t)
    ensures var (th', cells') := Move(s.threads[t], s.cells, t);
            |cells'| == SHARDS && Respects(init, s, t, th', cells')
  {
    var th := s.threads[t];
    forall i | 0 <= i < SHARDS && HoldsWrite(th, i) ensures HeldCell(th, i, init[i], s.cells[i]) {
      assert CellOk(s.threads, i, init[i], s.cells[i]);
    }
    match th.r
    case WriteLocking(k) =>
      assert CanWrite(s, t, k);
      FreeCellIsWhole(init, s, t, k);
    case Replacing(k) =>
    case WriteUnlocking(k) =>
  }

  lemma MoveRespects(init: seq<NsMap>, s: State, t: nat)
    requires Inv(init, s) && t < |s.threads| && !Done(s.threads[t]) && Granted(s, t)
    ensures var (th', cells') := Move(s.threads[t], s.cells, t);
            |cells'| == SHARDS && Respects(init, s, t, th', cells')
  {
    if s.threads[t].Writer? {
      WriterRespects(init, s, t);
    } else if s.threads[t].Snapshotter? {
      SnapshotRespects(init, s, t);
    } else {
      RestoreRespects(init, s, t);
    }
  }

  lemma StepKeepsInv(init: seq<NsMap>, s: State, t: nat, s': State)
    requires Inv(init, s) && Step(s, t, s')
    ensures Inv(init, s')
  {
    MoveRespects(init, s, t);
    RespectingMoveKeepsInv(init, s, t, s'.threads[t], s'.cells);
  }
}
