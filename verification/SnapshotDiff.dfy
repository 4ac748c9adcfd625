/** `Snapshot.diff`: what changed between two snapshots of a store, skipping whatever
    the two are seen to share. */
module SnapshotDiff {
  import opened Wrappers
  import opened ByteStrings
  import opened FlatMaps
  import opened ShardedStore

  /** Which shards, namespaces and values are the same allocation in both snapshots. */
  datatype Identity = Identity(shard: nat -> bool, ns: string -> bool, value: Pair -> bool)

  function MapOf(shardOf: string -> nat, shards: seq<NsMap>, ns: string): Option<map<string, Bytes>>
    requires shardOf(ns) < |shards|
  {
    var m := shards[shardOf(ns)];
    if ns in m then Some(m[ns]) else None
  }

  /** The same allocation has the same contents; the converse need not hold. */
  ghost predicate Sound(shardOf: string -> nat, same: Identity, a: seq<NsMap>, b: seq<NsMap>)
    requires Sharded(shardOf, a) && Sharded(shardOf, b)
  {
    && (forall i :: 0 <= i < SHARDS && same.shard(i) ==> a[i] == b[i])
    && (forall ns :: same.ns(ns) ==> MapOf(shardOf, a, ns) == MapOf(shardOf, b, ns))
    && (forall p: Pair :: same.value(p) ==> At(shardOf, a, p) == At(shardOf, b, p))
  }

  predicate Distinct(s: seq<Pair>) {
    forall i, j :: 0 <= i < j < |s| ==> s[i] != s[j]
  }

  lemma DistinctConcat(a: seq<Pair>, b: seq<Pair>)
    requires Distinct(a) && Distinct(b) && forall p :: p in a ==> p !in b
    ensures Distinct(a + b)
  {
    forall i, j | 0 <= i < j < |a + b| ensures (a + b)[i] != (a + b)[j] {
      if i < |a| <= j { assert (a + b)[i] in a && (a + b)[j] in b; }
    }
  }

  // ------------------------------------------------------------ the naive answers

  predicate IsAdded(mine: Option<Bytes>, base: Option<Bytes>) {
    mine.Some? && base.None?
  }

  predicate IsChanged(mine: Option<Bytes>, base: Option<Bytes>) {
    mine.Some? && base.Some? && mine != base
  }

  function LookIn(m: Option<map<string, Bytes>>, k: string): Option<Bytes> {
    if m.Some? && k in m.value then Some(m.value[k]) else None
  }

  // ------------------------------------------------------------------- one level

  /** The innermost loop: one namespace, compared key by key. */
  method DiffKeys(ns: string, mine: map<string, Bytes>, base: Option<map<string, Bytes>>, sameValue: Pair -> bool)
      returns (added: seq<Pair>, changed: seq<Pair>)
    requires forall k :: sameValue((ns, k)) ==> LookIn(Some(mine), k) == LookIn(base, k)
    ensures Distinct(added) && Distinct(changed)
    ensures forall p :: p in added <==> p.0 == ns && IsAdded(LookIn(Some(mine), p.1), LookIn(base, p.1))
    ensures forall p :: p in changed <==> p.0 == ns && IsChanged(LookIn(Some(mine), p.1), LookIn(base, p.1))
  {
    added, changed := [], [];
    var todo := mine.Keys;
    while todo != {}
      invariant todo <= mine.Keys
      invariant Distinct(added) && Distinct(changed)
      invariant forall p :: p in added <==>
                  p.0 == ns && p.1 in mine.Keys - todo && IsAdded(LookIn(Some(mine), p.1), LookIn(base, p.1))
      invariant forall p :: p in changed <==>
                  p.0 == ns && p.1 in mine.Keys - todo && IsChanged(LookIn(Some(mine), p.1), LookIn(base, p.1))
      decreases todo
    {
      var k :| k in todo;
      todo := todo - {k};
      match LookIn(base, k) {
        case None => added := added + [(ns, k)];
        case Some(bv) =>
          if !sameValue((ns, k)) && bv != mine[k] {
            changed := changed + [(ns, k)];
          }
      }
    }
  }

  /** The keys of one namespace of the base that are gone. */
  method GoneKeys(ns: string, base: map<string, Bytes>, mine: Option<map<string, Bytes>>) returns (removed: seq<Pair>)
    ensures Distinct(removed)
    ensures forall p :: p in removed <==> p.0 == ns && IsAdded(LookIn(Some(base), p.1), LookIn(mine, p.1))
  {
    removed := [];
    var todo := base.Keys;
    while todo != {}
      invariant todo <= base.Keys && Distinct(removed)
      invariant forall p :: p in removed <==>
                  p.0 == ns && p.1 in base.Keys - todo && IsAdded(LookIn(Some(base), p.1), LookIn(mine, p.1))
      decreases todo
    {
      var k :| k in todo;
      todo := todo - {k};
      if mine.None? || k !in mine.value {
        removed := removed + [(ns, k)];
      }
    }
  }

  /** The pairs of the namespaces `names` for which `wanted` holds. */
  ghost predicate Lists(s: seq<Pair>, names: set<string>, wanted: Pair -> bool) {
    Distinct(s) && forall p :: p in s <==> p.0 in names && wanted(p)
  }

  lemma ListsMore(s: seq<Pair>, more: seq<Pair>, names: set<string>, ns: string, wanted: Pair -> bool)
    requires Lists(s, names, wanted) && ns !in names
    requires Distinct(more) && forall p :: p in more <==> p.0 == ns && wanted(p)
    ensures Lists(s + more, names + {ns}, wanted)
  {
    DistinctConcat(s, more);
    assert forall p :: p in s + more <==> p in s || p in more;
  }

  lemma ListsSkip(s: seq<Pair>, names: set<string>, skipped: set<string>, wanted: Pair -> bool)
    requires Lists(s, names, wanted) && forall p: Pair :: p.0 in skipped ==> !wanted(p)
    ensures Lists(s, names + skipped, wanted)
  {
  }

  // -------------------------------------------------------------------- the diff

  ghost function AddedIn(shardOf: string -> nat, mine: seq<NsMap>, base: seq<NsMap>): Pair -> bool
    requires Sharded(shardOf, mine) && Sharded(shardOf, base)
  {
    (p: Pair) => if shardOf(p.0) < |mine| && shardOf(p.0) < |base|
                 then IsAdded(At(shardOf, mine, p), At(shardOf, base, p)) else false
  }

  ghost function ChangedIn(shardOf: string -> nat, mine: seq<NsMap>, base: seq<NsMap>): Pair -> bool
    requires Sharded(shardOf, mine) && Sharded(shardOf, base)
  {
    (p: Pair) => if shardOf(p.0) < |mine| && shardOf(p.0) < |base|
                 then IsChanged(At(shardOf, mine, p), At(shardOf, base, p)) else false
  }

  /** The names in the first `i` shards. */
  ghost function NamesBelow(shards: seq<NsMap>, i: nat): set<string>
    requires i <= |shards|
  {
    set j, ns | 0 <= j < i && ns in shards[j] :: ns
  }

  lemma NamesInNext(shardOf: string -> nat, shards: seq<NsMap>, i: nat)
    requires Sharded(shardOf, shards) && i < SHARDS
    ensures NamesBelow(shards, i + 1) == NamesBelow(shards, i) + shards[i].Keys
    ensures NamesBelow(shards, i) !! shards[i].Keys
  {
    forall ns | ns in NamesBelow(shards, i) ensures shardOf(ns) < i {
      var j :| 0 <= j < i && ns in shards[j];
    }
    forall ns | ns in shards[i].Keys ensures shardOf(ns) == i {
    }
  }

  /** What is added and changed in the namespaces `names`. */
  ghost predicate Found(shardOf: string -> nat, mine: seq<NsMap>, base: seq<NsMap>, added: seq<Pair>, changed: seq<Pair>,
                        names: set<string>)
    requires Sharded(shardOf, mine) && Sharded(shardOf, base)
  {
    Lists(added, names, AddedIn(shardOf, mine, base)) && Lists(changed, names, ChangedIn(shardOf, mine, base))
  }

  /** One namespace more, skipped if it is shared. */
  method DiffNs(shardOf: string -> nat, same: Identity, mine: seq<NsMap>, base: seq<NsMap>, ns: string,
                added: seq<Pair>, changed: seq<Pair>, ghost seen: set<string>)
      returns (added': seq<Pair>, changed': seq<Pair>)
    requires Sharded(shardOf, mine) && Sharded(shardOf, base) && Sound(shardOf, same, mine, base)
    requires Found(shardOf, mine, base, added, changed, seen) && ns !in seen && ns in mine[shardOf(ns)]
    ensures Found(shardOf, mine, base, added', changed', seen + {ns})
  {
    added', changed' := added, changed;
    var baseNs := MapOf(shardOf, base, ns);
    if baseNs.Some? && same.ns(ns) {
      SharedNs(shardOf, same, mine, base, ns);
      ListsSkip(added, seen, {ns}, AddedIn(shardOf, mine, base));
      ListsSkip(changed, seen, {ns}, ChangedIn(shardOf, mine, base));
    } else {
      NsLooks(shardOf, same, mine, base, ns);
      var a, c := DiffKeys(ns, mine[shardOf(ns)][ns], baseNs, same.value);
      ListsMore(added, a, seen, ns, AddedIn(shardOf, mine, base));
      ListsMore(changed, c, seen, ns, ChangedIn(shardOf, mine, base));
      added', changed' := added + a, changed + c;
    }
  }

  /** The first half of `diff`, for one shard that is not shared. */
  method DiffShard(shardOf: string -> nat, same: Identity, mine: seq<NsMap>, base: seq<NsMap>, i: nat,
                   added: seq<Pair>, changed: seq<Pair>)
      returns (added': seq<Pair>, changed': seq<Pair>)
    requires Sharded(shardOf, mine) && Sharded(shardOf, base) && Sound(shardOf, same, mine, base) && i < SHARDS
    requires Found(shardOf, mine, base, added, changed, NamesBelow(mine, i))
    ensures Found(shardOf, mine, base, added', changed', NamesBelow(mine, i + 1))
  {
    added', changed' := added, changed;
    NamesInNext(shardOf, mine, i);
    ghost var seen := NamesBelow(mine, i);
    var todo := mine[i].Keys;
    while todo != {}
      invariant todo <= mine[i].Keys && seen !! todo && seen + todo == NamesBelow(mine, i + 1)
      invariant Found(shardOf, mine, base, added', changed', seen)
      decreases todo
    {
      var ns :| ns in todo;
      assert shardOf(ns) == i;
      added', changed' := DiffNs(shardOf, same, mine, base, ns, added', changed', seen);
      todo, seen := todo - {ns}, seen + {ns};
    }
    assert seen == NamesBelow(mine, i + 1);
  }

  lemma NsLooks(shardOf: string -> nat, same: Identity, mine: seq<NsMap>, base: seq<NsMap>, ns: string)
    requires Sharded(shardOf, mine) && Sharded(shardOf, base) && Sound(shardOf, same, mine, base)
    ensures forall k :: At(shardOf, mine, (ns, k)) == LookIn(MapOf(shardOf, mine, ns), k)
    ensures forall k :: At(shardOf, base, (ns, k)) == LookIn(MapOf(shardOf, base, ns), k)
    ensures forall k :: same.value((ns, k)) ==>
              LookIn(MapOf(shardOf, mine, ns), k) == LookIn(MapOf(shardOf, base, ns), k)
  {
    forall k | same.value((ns, k))
      ensures LookIn(MapOf(shardOf, mine, ns), k) == LookIn(MapOf(shardOf, base, ns), k)
    {
      assert At(shardOf, mine, (ns, k)) == At(shardOf, base, (ns, k));
    }
  }

  /** A shared namespace has nothing to report. */
  lemma SharedNs(shardOf: string -> nat, same: Identity, mine: seq<NsMap>, base: seq<NsMap>, ns: string)
    requires Sharded(shardOf, mine) && Sharded(shardOf, base) && Sound(shardOf, same, mine, base) && same.ns(ns)
    ensures forall p: Pair :: p.0 == ns ==> At(shardOf, mine, p) == At(shardOf, base, p)
  {
    assert MapOf(shardOf, mine, ns) == MapOf(shardOf, base, ns);
    NsLooks(shardOf, same, mine, base, ns);
    forall p: Pair | p.0 == ns ensures At(shardOf, mine, p) == At(shardOf, base, p) {
      assert p == (ns, p.1);
    }
  }

  /** A shared shard has nothing to report. */
  lemma SharedShard(shardOf: string -> nat, same: Identity, mine: seq<NsMap>, base: seq<NsMap>, i: nat)
    requires Sharded(shardOf, mine) && Sharded(shardOf, base) && Sound(shardOf, same, mine, base)
    requires i < SHARDS && same.shard(i)
    ensures forall p: Pair :: p.0 in mine[i].Keys + base[i].Keys ==> At(shardOf, mine, p) == At(shardOf, base, p)
  {
    assert mine[i] == base[i];
  }

  /** The second half of `diff`, for one shard that is not shared. */
  method GoneShard(shardOf: string -> nat, same: Identity, mine: seq<NsMap>, base: seq<NsMap>, i: nat, removed: seq<Pair>)
      returns (removed': seq<Pair>)
    requires Sharded(shardOf, mine) && Sharded(shardOf, base) && Sound(shardOf, same, mine, base) && i < SHARDS
    requires Lists(removed, NamesBelow(base, i), AddedIn(shardOf, base, mine))
    ensures Lists(removed', NamesBelow(base, i + 1), AddedIn(shardOf, base, mine))
  {
    removed' := removed;
    NamesInNext(shardOf, base, i);
    ghost var seen := NamesBelow(base, i);
    ghost var before := seen;
    var todo := base[i].Keys;
    while todo != {}
      invariant todo <= base[i].Keys && seen == before + (base[i].Keys - todo)
      invariant Lists(removed', seen, AddedIn(shardOf, base, mine))
      decreases todo
    {
      var ns :| ns in todo;
      todo := todo - {ns};
      var mineNs := MapOf(shardOf, mine, ns);
      if mineNs.Some? && same.ns(ns) {
        SharedNs(shardOf, same, mine, base, ns);
        ListsSkip(removed', seen, {ns}, AddedIn(shardOf, base, mine));
      } else {
        NsLooks(shardOf, same, mine, base, ns);
        var r := GoneKeys(ns, base[i][ns], mineNs);
        ListsMore(removed', r, seen, ns, AddedIn(shardOf, base, mine));
        removed' := removed' + r;
      }
      seen := seen + {ns};
    }
  }

  /** `Snapshot.diff`: with whatever is seen to be shared, the same three lists as
      comparing every key, each pair listed once. */
  method Diff(shardOf: string -> nat, same: Identity, mine: seq<NsMap>, base: seq<NsMap>)
      returns (added: seq<Pair>, removed: seq<Pair>, changed: seq<Pair>)
    requires Sharded(shardOf, mine) && Sharded(shardOf, base) && Sound(shardOf, same, mine, base)
    ensures Distinct(added) && Distinct(removed) && Distinct(changed)
    ensures forall p :: p in added <==> p in Contents(mine) && p !in Contents(base)
    ensures forall p :: p in removed <==> p in Contents(base) && p !in Contents(mine)
    ensures forall p :: p in changed <==>
              p in Contents(mine) && p in Contents(base) && Contents(mine)[p] != Contents(base)[p]
  {
    added, removed, changed := [], [], [];
    for i := 0 to SHARDS
      invariant Lists(added, NamesBelow(mine, i), AddedIn(shardOf, mine, base))
      invariant Lists(changed, NamesBelow(mine, i), ChangedIn(shardOf, mine, base))
    {
      if same.shard(i) {
        SharedShard(shardOf, same, mine, base, i);
        NamesInNext(shardOf, mine, i);
        ListsSkip(added, NamesBelow(mine, i), mine[i].Keys, AddedIn(shardOf, mine, base));
        ListsSkip(changed, NamesBelow(mine, i), mine[i].Keys, ChangedIn(shardOf, mine, base));
      } else {
        added, changed := DiffShard(shardOf, same, mine, base, i, added, changed);
      }
    }
    for i := 0 to SHARDS
      invariant Lists(removed, NamesBelow(base, i), AddedIn(shardOf, base, mine))
    {
      if same.shard(i) {
        SharedShard(shardOf, same, mine, base, i);
        NamesInNext(shardOf, base, i);
        ListsSkip(removed, NamesBelow(base, i), base[i].Keys, AddedIn(shardOf, base, mine));
      } else {
        removed := GoneShard(shardOf, same, mine, base, i, removed);
      }
    }
    AllNames(shardOf, mine, base);
    AllNames(shardOf, base, mine);
  }

  /** Every pair that is added, changed or removed is in one of the shards walked. */
  lemma AllNames(shardOf: string -> nat, mine: seq<NsMap>, base: seq<NsMap>)
    requires Sharded(shardOf, mine) && Sharded(shardOf, base)
    ensures forall p: Pair :: (p.0 in NamesBelow(mine, SHARDS) && AddedIn(shardOf, mine, base)(p))
                              <==> p in Contents(mine) && p !in Contents(base)
    ensures forall p: Pair :: (p.0 in NamesBelow(mine, SHARDS) && ChangedIn(shardOf, mine, base)(p))
                              <==> p in Contents(mine) && p in Contents(base) && Contents(mine)[p] != Contents(base)[p]
  {
    forall p: Pair
      ensures (p.0 in NamesBelow(mine, SHARDS) && AddedIn(shardOf, mine, base)(p))
              <==> p in Contents(mine) && p !in Contents(base)
      ensures (p.0 in NamesBelow(mine, SHARDS) && ChangedIn(shardOf, mine, base)(p))
              <==> p in Contents(mine) && p in Contents(base) && Contents(mine)[p] != Contents(base)[p]
    {
      ContentsAt(shardOf, mine, p);
      ContentsAt(shardOf, base, p);
      if At(shardOf, mine, p).Some? {
        assert p.0 in mine[shardOf(p.0)];
        assert p.0 in NamesBelow(mine, SHARDS);
      }
    }
  }

  // ------------------------------------------------------------------ applying it

  /** What the diff describes: from the base, drop what was removed and take what was
      added or changed from the newer snapshot. */
  ghost function Patch(base: Flat, mine: Flat, added: seq<Pair>, removed: seq<Pair>, changed: seq<Pair>): Flat {
    (base - PairSet(removed)) + map p | p in mine && (p in added || p in changed) :: mine[p]
  }

  /** Applying a diff to its base gives the newer snapshot. */
  lemma DiffTakesBaseToMine(base: Flat, mine: Flat, added: seq<Pair>, removed: seq<Pair>, changed: seq<Pair>)
    requires forall p :: p in added <==> p in mine && p !in base
    requires forall p :: p in removed <==> p in base && p !in mine
    requires forall p :: p in changed <==> p in mine && p in base && mine[p] != base[p]
    ensures Patch(base, mine, added, removed, changed) == mine
  {
    var patched := Patch(base, mine, added, removed, changed);
    forall p ensures Get(patched, p) == Get(mine, p) {
      assert p in PairSet(removed) <==> p in removed;
    }
    SameGets(patched, mine);
  }
}
