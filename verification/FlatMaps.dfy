/** The flat view of a store: one map from `(namespace, key)` to value bytes. */
module FlatMaps {
  import opened ByteStrings
  import opened Wrappers

  type Pair = (string, string)
  type Flat = map<Pair, Bytes>

  /** `namespace -> (key -> value bytes)`, what one shard holds. */
  type NsMap = map<string, map<string, Bytes>>

  datatype Entry = Entry(ns: string, key: string, value: Bytes)

  function PairOf(e: Entry): Pair {
    (e.ns, e.key)
  }

  // ------------------------------------------------------------------- flat maps

  /** Entries stored one after the other. */
  function PutAll(f: Flat, entries: seq<Entry>): Flat
    decreases |entries|
  {
    if entries == [] then f else PutAll(f[PairOf(entries[0]) := entries[0].value], entries[1..])
  }

  function PairSet(pairs: seq<Pair>): set<Pair> {
    set p | p in pairs
  }

  function Get(f: Flat, p: Pair): Option<Bytes> {
    if p in f then Some(f[p]) else None
  }

  /** What a store of entries changes at one pair depends on the last entry for it. */
  function LastFor(entries: seq<Entry>, p: Pair): Option<Bytes> {
    if entries == [] then None
    else
      var later := LastFor(entries[1..], p);
      if later.Some? then later
      else if PairOf(entries[0]) == p then Some(entries[0].value)
      else None
  }

  lemma {:induction false} PutAllAt(f: Flat, entries: seq<Entry>, p: Pair)
    ensures Get(PutAll(f, entries), p) == if LastFor(entries, p).Some? then LastFor(entries, p) else Get(f, p)
    decreases |entries|
  {
    if entries != [] {
      PutAllAt(f[PairOf(entries[0]) := entries[0].value], entries[1..], p);
    }
  }

  lemma SameGets(a: Flat, b: Flat)
    requires forall p :: Get(a, p) == Get(b, p)
    ensures a == b
  {
    forall p ensures p in a <==> p in b { assert Get(a, p) == Get(b, p); }
    forall p | p in a ensures a[p] == b[p] { assert Get(a, p) == Get(b, p); }
  }

  // -------------------------------------------------------------------- byte sums

  /** Total length of the values. */
  ghost function SumLen(f: Flat): nat {
    if f == map[] then 0
    else
      var p :| p in f;
      |f[p]| + SumLen(f - {p})
  }

  lemma {:induction false} SumLenWithout(f: Flat, p: Pair)
    requires p in f
    ensures SumLen(f) == |f[p]| + SumLen(f - {p})
    decreases |f|
  {
    var q :| q in f && SumLen(f) == |f[q]| + SumLen(f - {q});
    if p != q {
      assert f - {q} - {p} == f - {p} - {q};
      SumLenWithout(f - {q}, p);
      SumLenWithout(f - {p}, q);
    }
  }

  lemma SumLenPut(f: Flat, p: Pair, v: Bytes)
    ensures SumLen(f[p := v]) == SumLen(f) + |v| - (if p in f then |f[p]| else 0)
  {
    var g := f[p := v];
    SumLenWithout(g, p);
    if p in f {
      SumLenWithout(f, p);
      assert g - {p} == f - {p};
    } else {
      assert g - {p} == f;
    }
  }

  // ------------------------------------------------------------------- one shard

  function Put(m: NsMap, e: Entry): NsMap {
    m[e.ns := (if e.ns in m then m[e.ns] else map[])[e.key := e.value]]
  }

  /** A namespace that loses its last key goes too. */
  function Remove(m: NsMap, p: Pair): NsMap {
    if p.0 in m && p.1 in m[p.0] then
      var inner := m[p.0] - {p.1};
      if inner == map[] then m - {p.0} else m[p.0 := inner]
    else m
  }

  function FlatPairs(m: NsMap): set<Pair> {
    set ns, k | ns in m && k in m[ns] :: (ns, k)
  }

  function Flatten(m: NsMap): Flat {
    map p | p in FlatPairs(m) :: m[p.0][p.1]
  }

  predicate NoEmpty(m: NsMap) {
    forall ns :: ns in m ==> m[ns] != map[]
  }

  /** Looking a pair up in a shard. */
  function Look(m: NsMap, p: Pair): Option<Bytes> {
    if p.0 in m && p.1 in m[p.0] then Some(m[p.0][p.1]) else None
  }

  lemma FlattenAt(m: NsMap, p: Pair)
    ensures Get(Flatten(m), p) == Look(m, p)
  {
  }

  lemma FlattenIs(m: NsMap, f: Flat)
    requires forall p :: Look(m, p) == Get(f, p)
    ensures Flatten(m) == f
  {
    forall p ensures Get(Flatten(m), p) == Get(f, p) {
      FlattenAt(m, p);
      assert Look(m, p) == Get(f, p);
    }
    SameGets(Flatten(m), f);
  }

  lemma LookPut(m: NsMap, e: Entry, p: Pair)
    ensures Look(Put(m, e), p) == if p == PairOf(e) then Some(e.value) else Look(m, p)
  {
  }

  lemma FlattenPut(m: NsMap, e: Entry)
    ensures Flatten(Put(m, e)) == Flatten(m)[PairOf(e) := e.value]
    ensures NoEmpty(m) ==> NoEmpty(Put(m, e))
  {
    assert e.key in Put(m, e)[e.ns];
    forall p ensures Look(Put(m, e), p) == Get(Flatten(m)[PairOf(e) := e.value], p) {
      LookPut(m, e, p);
      FlattenAt(m, p);
    }
    FlattenIs(Put(m, e), Flatten(m)[PairOf(e) := e.value]);
  }

  lemma LookRemove(m: NsMap, p: Pair, q: Pair)
    ensures Look(Remove(m, p), q) == if q == p then None else Look(m, q)
  {
    if p.0 in m && p.1 in m[p.0] && q.0 == p.0 {
      var inner := m[p.0] - {p.1};
      assert q.1 in inner <==> q.1 in m[p.0] && q.1 != p.1;
      assert q == p <==> q.1 == p.1;
    }
  }

  lemma FlattenRemove(m: NsMap, p: Pair)
    ensures Flatten(Remove(m, p)) == Flatten(m) - {p}
    ensures NoEmpty(m) ==> NoEmpty(Remove(m, p))
  {
    forall q ensures Look(Remove(m, p), q) == Get(Flatten(m) - {p}, q) {
      LookRemove(m, p, q);
      FlattenAt(m, q);
    }
    FlattenIs(Remove(m, p), Flatten(m) - {p});
  }

  function WithoutNs(f: Flat, ns: string): Flat {
    map p | p in f && p.0 != ns :: f[p]
  }

  lemma FlattenDropNs(m: NsMap, ns: string)
    ensures Flatten(m - {ns}) == WithoutNs(Flatten(m), ns)
  {
    forall p ensures Look(m - {ns}, p) == Get(WithoutNs(Flatten(m), ns), p) {
      FlattenAt(m, p);
    }
    FlattenIs(m - {ns}, WithoutNs(Flatten(m), ns));
  }
}
