/** Building a routing state that holds only what the conditions of a node read. */
module PartialState {
  import opened Wrappers
  import opened Condition

  predicate IsPrefix(a: Path, b: Path) {
    |a| <= |b| && b[..|a|] == a
  }

  predicate Comparable(a: Path, b: Path) {
    IsPrefix(a, b) || IsPrefix(b, a)
  }

  predicate PrefixFree(paths: seq<Path>) {
    forall i, j :: 0 <= i < j < |paths| ==> !Comparable(paths[i], paths[j])
  }

  // ------------------------------------------------------------- covered paths

  predicate SortedByLength(paths: seq<Path>) {
    forall i, j :: 0 <= i < j < |paths| ==> |paths[i]| <= |paths[j]|
  }

  /** `sort_by_key(Vec::len)`. */
  function SortByLength(paths: seq<Path>): (r: seq<Path>)
    ensures SortedByLength(r)
    ensures forall q :: q in r <==> q in paths
  {
    if paths == [] then []
    else
      var p := paths[|paths| - 1];
      assert forall q :: q in paths <==> q in paths[..|paths| - 1] || q == p;
      PlaceByLength(SortByLength(paths[..|paths| - 1]), p)
  }

  /** `p` after every path that is not longer. */
  function PlaceByLength(sorted: seq<Path>, p: Path): (r: seq<Path>)
    requires SortedByLength(sorted)
    ensures SortedByLength(r)
    ensures forall q :: q in r <==> q in sorted || q == p
  {
    if sorted == [] || |sorted[|sorted| - 1]| <= |p| then sorted + [p]
    else
      var longest := sorted[|sorted| - 1];
      assert forall q :: q in sorted <==> q in sorted[..|sorted| - 1] || q == longest;
      var init := PlaceByLength(sorted[..|sorted| - 1], p);
      assert forall i :: 0 <= i < |init| ==> init[i] in init;
      init + [longest]
  }

  /** Some path kept is a prefix of `p`. */
  predicate Covered(kept: seq<Path>, p: Path) {
    exists k :: k in kept && IsPrefix(k, p)
  }

  /** `drop_covered_paths`: what is left is prefix-free, and every path dropped had one
      of the paths kept as a prefix. */
  method DropCoveredPaths(paths: seq<Path>) returns (kept: seq<Path>)
    ensures PrefixFree(kept)
    ensures forall k :: k in kept ==> k in paths
    ensures forall p :: p in paths ==> Covered(kept, p)
  {
    var sorted := SortByLength(paths);
    kept := [];
    for i := 0 to |sorted|
      invariant KeptSoFar(sorted, i, kept)
    {
      if !Covered(kept, sorted[i]) {
        KeepOneMore(sorted, i, kept);
        kept := kept + [sorted[i]];
      }
    }
  }

  /** What is kept are paths of the list, none longer than those from `i` on. */
  predicate ShortMembers(sorted: seq<Path>, i: nat, kept: seq<Path>) {
    && (forall k :: k in kept ==> k in sorted)
    && (forall k, j :: k in kept && i <= j < |sorted| ==> |k| <= |sorted[j]|)
  }

  predicate CoversFirst(sorted: seq<Path>, i: nat, kept: seq<Path>)
    requires i <= |sorted|
  {
    forall j :: 0 <= j < i ==> Covered(kept, sorted[j])
  }

  ghost predicate KeptSoFar(sorted: seq<Path>, i: nat, kept: seq<Path>)
    requires i <= |sorted|
  {
    PrefixFree(kept) && ShortMembers(sorted, i, kept) && CoversFirst(sorted, i, kept)
  }

  lemma KeepShort(sorted: seq<Path>, i: nat, kept: seq<Path>)
    requires SortedByLength(sorted) && i < |sorted| && ShortMembers(sorted, i, kept)
    ensures ShortMembers(sorted, i + 1, kept + [sorted[i]])
  {
    var kept' := kept + [sorted[i]];
    forall k | k in kept' ensures k in sorted && forall j :: i + 1 <= j < |sorted| ==> |k| <= |sorted[j]| {
      if k !in kept {
        assert k == sorted[i];
      }
    }
  }

  lemma KeepCovers(sorted: seq<Path>, i: nat, kept: seq<Path>)
    requires i < |sorted| && CoversFirst(sorted, i, kept) && Covered(kept + [sorted[i]], sorted[i])
    requires forall p :: Covered(kept, p) ==> Covered(kept + [sorted[i]], p)
    ensures CoversFirst(sorted, i + 1, kept + [sorted[i]])
  {
    forall j | 0 <= j < i + 1 ensures Covered(kept + [sorted[i]], sorted[j]) {
      if j < i {
        assert Covered(kept, sorted[j]);
      }
    }
  }

  lemma KeepOneMore(sorted: seq<Path>, i: nat, kept: seq<Path>)
    requires SortedByLength(sorted) && i < |sorted| && KeptSoFar(sorted, i, kept) && !Covered(kept, sorted[i])
    ensures KeptSoFar(sorted, i + 1, kept + [sorted[i]])
  {
    AddIncomparable(kept, sorted[i]);
    KeepShort(sorted, i, kept);
    KeepCovers(sorted, i, kept);
  }

  lemma PrefixOfShorter(a: Path, b: Path)
    requires |b| <= |a|
    ensures IsPrefix(a, b) ==> IsPrefix(b, a)
  {
  }

  lemma AddIncomparable(kept: seq<Path>, path: Path)
    requires PrefixFree(kept) && !Covered(kept, path)
    requires forall k :: k in kept ==> |k| <= |path|
    ensures PrefixFree(kept + [path])
    ensures forall p :: Covered(kept, p) ==> Covered(kept + [path], p)
    ensures Covered(kept + [path], path)
  {
    forall m | 0 <= m < |kept| ensures !Comparable(kept[m], path) {
      assert kept[m] in kept;
      PrefixOfShorter(path, kept[m]);
    }
    assert forall k :: k in kept + [path] <==> k in kept || k == path;
    assert path in kept + [path] && IsPrefix(path, path);
  }

  // ------------------------------------------------------------------ insertion

  /** The position of the first entry with the string key `key`. */
  function FindIndex(pairs: seq<(Value, Value)>, key: string): (r: Option<nat>)
    ensures r.Some? ==> r.value < |pairs| && pairs[r.value].0 == Str(key) && Find(pairs, key) == Some(pairs[r.value].1)
    ensures r.None? <==> Find(pairs, key).None?
  {
    if pairs == [] then None
    else if pairs[0].0 == Str(key) then Some(0)
    else match FindIndex(pairs[1..], key)
      case None => None
      case Some(i) => Some(i + 1)
  }

  /** `insert_path`: the leaf at the end of a skeleton of nested maps. Below a key that
      already holds something other than a map, nothing is inserted. */
  function InsertPath(pairs: seq<(Value, Value)>, path: Path, leaf: Value): seq<(Value, Value)>
    requires path != []
    decreases |path|
  {
    var key := Str(path[0]);
    if |path| == 1 then pairs + [(key, leaf)]
    else match FindIndex(pairs, path[0])
      case Some(i) =>
        (match pairs[i].1
         case Map(inner) => pairs[i := (key, Map(InsertPath(inner, path[1..], leaf)))]
         case _ => pairs)
      case None => pairs + [(key, Map(InsertPath([], path[1..], leaf)))]
  }

  lemma {:induction false} FindAppend(pairs: seq<(Value, Value)>, k: Value, v: Value, key: string)
    ensures Find(pairs + [(k, v)], key) ==
            if Find(pairs, key).Some? then Find(pairs, key) else if k == Str(key) then Some(v) else None
  {
    if pairs == [] {
      assert (pairs + [(k, v)])[1..] == [];
    } else if pairs[0].0 != Str(key) {
      assert (pairs + [(k, v)])[1..] == pairs[1..] + [(k, v)];
      FindAppend(pairs[1..], k, v, key);
    }
  }

  lemma {:induction false} FindReplaced(pairs: seq<(Value, Value)>, i: nat, found: string, v: Value, key: string)
    requires FindIndex(pairs, found) == Some(i)
    ensures Find(pairs[i := (Str(found), v)], key) == if key == found then Some(v) else Find(pairs, key)
  {
    if i > 0 {
      assert pairs[i := (Str(found), v)][1..] == pairs[1..][i - 1 := (Str(found), v)];
      if pairs[0].0 != Str(key) { FindReplaced(pairs[1..], i - 1, found, v, key); }
    } else {
      assert pairs[i := (Str(found), v)][1..] == pairs[1..];
    }
  }

  /** Nothing stands in the way of inserting at `path`. */
  predicate Free(pairs: seq<(Value, Value)>, path: Path)
    decreases |path|
  {
    path != [] &&
    match Find(pairs, path[0])
    case None => true
    case Some(v) => |path| > 1 && v.Map? && Free(v.pairs, path[1..])
  }

  lemma {:induction false} FreeIsAbsent(pairs: seq<(Value, Value)>, path: Path)
    requires Free(pairs, path)
    ensures Lookup(Map(pairs), path) == None
    decreases |path|
  {
    var found := Find(pairs, path[0]);
    if found.Some? { FreeIsAbsent(found.value.pairs, path[1..]); }
  }

  /** An insertion that nothing stands in the way of does put the leaf there. */
  lemma {:induction false} InsertedIsFound(pairs: seq<(Value, Value)>, path: Path, leaf: Value)
    requires Free(pairs, path)
    ensures Lookup(Map(InsertPath(pairs, path, leaf)), path) == Some(leaf)
    decreases |path|
  {
    if |path| == 1 {
      FindAppend(pairs, Str(path[0]), leaf, path[0]);
      assert Lookup(leaf, path[1..]) == Some(leaf);
    } else {
      match FindIndex(pairs, path[0]) {
        case Some(i) =>
          var inner := pairs[i].1.pairs;
          InsertedIsFound(inner, path[1..], leaf);
          FindReplaced(pairs, i, path[0], Map(InsertPath(inner, path[1..], leaf)), path[0]);
        case None =>
          InsertedIsFound([], path[1..], leaf);
          FindAppend(pairs, Str(path[0]), Map(InsertPath([], path[1..], leaf)), path[0]);
      }
    }
  }

  /** An insertion changes nothing at a path it is not comparable with, and does not
      stand in its way either. */
  lemma {:induction false} InsertElsewhere(pairs: seq<(Value, Value)>, path: Path, leaf: Value, other: Path)
    requires path != [] && !Comparable(path, other)
    ensures Lookup(Map(InsertPath(pairs, path, leaf)), other) == Lookup(Map(pairs), other)
    ensures Free(pairs, other) ==> Free(InsertPath(pairs, path, leaf), other)
    decreases |path|
  {
    if path[0] != other[0] {
      OtherKey(pairs, path, leaf, other[0]);
    } else {
      RestNotComparable(path, other);
      match FindIndex(pairs, path[0]) {
        case Some(i) =>
          if pairs[i].1.Map? {
            var inner := pairs[i].1.pairs;
            InsertElsewhere(inner, path[1..], leaf, other[1..]);
            FindReplaced(pairs, i, path[0], Map(InsertPath(inner, path[1..], leaf)), path[0]);
          }
        case None =>
          InsertElsewhere([], path[1..], leaf, other[1..]);
          FindAppend(pairs, Str(path[0]), Map(InsertPath([], path[1..], leaf)), path[0]);
      }
    }
  }

  lemma PrefixUnderKey(key: string, a: Path, b: Path)
    ensures IsPrefix([key] + a, [key] + b) <==> IsPrefix(a, b)
  {
    if |a| <= |b| {
      assert ([key] + b)[..|a| + 1] == [key] + b[..|a|];
      assert ([key] + a)[1..] == a && ([key] + b[..|a|])[1..] == b[..|a|];
    }
  }

  lemma RestNotComparable(path: Path, other: Path)
    requires path != [] && other != [] && path[0] == other[0] && !Comparable(path, other)
    ensures |path| > 1 && |other| > 1 && !Comparable(path[1..], other[1..])
  {
    assert path == [path[0]] + path[1..] && other == [path[0]] + other[1..];
    PrefixUnderKey(path[0], path[1..], other[1..]);
    PrefixUnderKey(path[0], other[1..], path[1..]);
  }

  lemma OtherKey(pairs: seq<(Value, Value)>, path: Path, leaf: Value, key: string)
    requires path != [] && path[0] != key
    ensures Find(InsertPath(pairs, path, leaf), key) == Find(pairs, key)
  {
    if |path| == 1 {
      FindAppend(pairs, Str(path[0]), leaf, key);
    } else {
      match FindIndex(pairs, path[0]) {
        case Some(i) =>
          if pairs[i].1.Map? {
            FindReplaced(pairs, i, path[0], Map(InsertPath(pairs[i].1.pairs, path[1..], leaf)), key);
          }
        case None =>
          FindAppend(pairs, Str(path[0]), Map(InsertPath([], path[1..], leaf)), key);
      }
    }
  }

  // --------------------------------------------------------------- partial state

  /** After inserting the first `n` paths that resolve: those answer as the full state
      does, and the way to all the others is still free. */
  ghost predicate Built(paths: seq<Path>, state: Value, n: nat, pairs: seq<(Value, Value)>)
    requires n <= |paths|
  {
    && (forall i :: 0 <= i < n ==> Lookup(Map(pairs), paths[i]) == Lookup(state, paths[i]))
    && (forall i :: n <= i < |paths| ==> Free(pairs, paths[i]))
    && (forall i :: 0 <= i < n && Lookup(state, paths[i]).None? ==> Free(pairs, paths[i]))
  }

  /** The path leads neither to, nor past, nor into what is kept. */
  ghost predicate Apart(paths: seq<Path>, q: Path) {
    q != [] && forall i :: 0 <= i < |paths| ==> !Comparable(paths[i], q)
  }

  lemma InsertKeepsApart(paths: seq<Path>, n: nat, pairs: seq<(Value, Value)>, leaf: Value)
    requires n < |paths| && paths[n] != []
    requires forall q :: Apart(paths, q) ==> Lookup(Map(pairs), q) == None
    ensures forall q :: Apart(paths, q) ==> Lookup(Map(InsertPath(pairs, paths[n], leaf)), q) == None
  {
    forall q | Apart(paths, q) ensures Lookup(Map(InsertPath(pairs, paths[n], leaf)), q) == None {
      InsertElsewhere(pairs, paths[n], leaf, q);
    }
  }

  /** `partial_state`: resolve each path in the full state and insert what is there. */
  method BuildPartial(paths: seq<Path>, state: Value) returns (partial: Value)
    requires PrefixFree(paths) && forall p :: p in paths ==> p != []
    ensures forall p :: p in paths ==> Lookup(partial, p) == Lookup(state, p)
    ensures forall q :: Apart(paths, q) ==> Lookup(partial, q) == None
  {
    var pairs: seq<(Value, Value)> := [];
    forall i | 0 <= i < |paths| ensures Free(pairs, paths[i]) {
      assert paths[i] in paths;
    }
    for n := 0 to |paths|
      invariant Built(paths, state, n, pairs)
      invariant forall q :: Apart(paths, q) ==> Lookup(Map(pairs), q) == None
    {
      var value := LookupLoop(state, paths[n]);
      assert paths[n] in paths;
      if value.Some? {
        InsertKeepsBuilt(paths, state, n, pairs, value.value);
        InsertKeepsApart(paths, n, pairs, value.value);
        pairs := InsertPath(pairs, paths[n], value.value);
      } else {
        FreeIsAbsent(pairs, paths[n]);
      }
    }
    partial := Map(pairs);
  }

  lemma InsertKeepsBuilt(paths: seq<Path>, state: Value, n: nat, pairs: seq<(Value, Value)>, leaf: Value)
    requires PrefixFree(paths) && n < |paths| && paths[n] != []
    requires Built(paths, state, n, pairs) && Lookup(state, paths[n]) == Some(leaf)
    ensures Built(paths, state, n + 1, InsertPath(pairs, paths[n], leaf))
  {
    var after := InsertPath(pairs, paths[n], leaf);
    InsertedIsFound(pairs, paths[n], leaf);
    forall i | 0 <= i < |paths| && i != n
      ensures Lookup(Map(after), paths[i]) == Lookup(Map(pairs), paths[i])
      ensures Free(pairs, paths[i]) ==> Free(after, paths[i])
    {
      assert !Comparable(paths[n], paths[i]);
      InsertElsewhere(pairs, paths[n], leaf, paths[i]);
    }
  }

  // ------------------------------------------------------------- covering suffices

  /** Looking up `p + rest` is looking up `rest` in what is at `p`. */
  lemma {:induction false} LookupThrough(state: Value, p: Path, rest: Path)
    ensures Lookup(state, p + rest) ==
            match Lookup(state, p) case None => None case Some(v) => Lookup(v, rest)
    decreases |p|
  {
    if p == [] {
      assert p + rest == rest;
    } else {
      assert (p + rest)[1..] == p[1..] + rest;
      if state.Map? && Find(state.pairs, p[0]).Some? {
        LookupThrough(Find(state.pairs, p[0]).value, p[1..], rest);
      }
    }
  }

  /** States that agree on a prefix of a path agree on the path. */
  lemma CoveredAgrees(a: Value, b: Value, p: Path, q: Path)
    requires IsPrefix(p, q) && Lookup(a, p) == Lookup(b, p)
    ensures Lookup(a, q) == Lookup(b, q)
  {
    assert q == p + q[|p|..];
    LookupThrough(a, p, q[|p|..]);
    LookupThrough(b, p, q[|p|..]);
  }

  /** `kept` covers everything `e` reads. */
  ghost predicate Covers(kept: seq<Path>, e: Expr) {
    forall q :: q in PathsOf(e) ==> Covered(kept, q)
  }

  lemma CoveredAgree(e: Expr, kept: seq<Path>, a: Value, b: Value)
    requires Covers(kept, e) && forall p :: p in kept ==> Lookup(a, p) == Lookup(b, p)
    ensures Agree(PathsOf(e), a, b)
  {
    forall q | q in PathsOf(e) ensures Lookup(a, q) == Lookup(b, q) {
      var p :| p in kept && IsPrefix(p, q);
      CoveredAgrees(a, b, p, q);
    }
  }

  lemma CoveredEval(sem: Semantics, e: Expr, kept: seq<Path>, a: Value, b: Value)
    requires Covers(kept, e) && forall p :: p in kept ==> Lookup(a, p) == Lookup(b, p)
    ensures Holds(sem, e, a) == Holds(sem, e, b)
  {
    CoveredAgree(e, kept, a, b);
    EvalReadsOnlyItsPaths(sem, e, a, b);
  }
}
