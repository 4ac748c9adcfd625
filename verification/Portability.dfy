/** Copying a store, dumping it to a file and loading it back. */
module Portability {
  import opened ByteStrings
  import opened Codec
  import opened CodecRoundTrip
  import opened DumpFormat
  import opened PyValues
  import opened Text
  import opened Wrappers

  const BATCH: nat := 1000

  // ------------------------------------------------------- lists of what is stored

  function PairOf(e: Item): Pair {
    (e.ns, e.key)
  }

  predicate Selects(prefix: Option<string>, ns: string) {
    prefix.None? || StartsWith(ns, prefix.value)
  }

  /** What a prefix selects of a store. */
  function Selected(c: Contents, prefix: Option<string>): Contents {
    map p: Pair | p in c && Selects(prefix, p.0) :: c[p]
  }

  predicate BeginsWith(s: string, prefix: string) {
    |prefix| <= |s| && forall i :: 0 <= i < |prefix| ==> s[i] == prefix[i]
  }

  /** The pair is stored, and its namespace begins with the prefix, if there is one. */
  predicate Taken(c: Contents, prefix: Option<string>, p: Pair) {
    p in c && (prefix.Some? ==> BeginsWith(p.0, prefix.value))
  }

  lemma TakenIff(c: Contents, prefix: Option<string>)
    ensures forall p :: Taken(c, prefix, p) <==> p in Selected(c, prefix).Keys
  {
    forall p: Pair ensures Selects(prefix, p.0) <==> (prefix.Some? ==> BeginsWith(p.0, prefix.value)) {
      if prefix.Some? && BeginsWith(p.0, prefix.value) {
        assert p.0[..|prefix.value|] == prefix.value;
      }
      if prefix.Some? && Selects(prefix, p.0) {
        forall i | 0 <= i < |prefix.value| ensures p.0[i] == prefix.value[i] {
          assert p.0[..|prefix.value|][i] == p.0[i];
        }
      }
    }
  }

  /** The items are the pairs taken, each once, with what is stored for it. */
  ghost predicate EachOnce(items: seq<Item>, c: Contents, prefix: Option<string>) {
    && (forall i :: 0 <= i < |items| ==> Taken(c, prefix, PairOf(items[i])) && c[PairOf(items[i])] == items[i].value)
    && (forall p :: Taken(c, prefix, p) ==> exists i :: 0 <= i < |items| && PairOf(items[i]) == p)
    && (forall i, j :: 0 <= i < j < |items| ==> PairOf(items[i]) != PairOf(items[j]))
  }

  lemma ListedOnce(items: seq<Item>, c: Contents, prefix: Option<string>)
    requires Lists(items, c, Selected(c, prefix).Keys)
    ensures EachOnce(items, c, prefix)
  {
    TakenIff(c, prefix);
    forall i | 0 <= i < |items| ensures Taken(c, prefix, PairOf(items[i])) {
      assert PairOf(items[i]) in PairsIn(items);
    }
    forall p | Taken(c, prefix, p) ensures exists i :: 0 <= i < |items| && PairOf(items[i]) == p {
      assert p in PairsIn(items);
    }
  }

  function PairsIn(items: seq<Item>): set<Pair> {
    set i | 0 <= i < |items| :: PairOf(items[i])
  }

  /** The items are the store's entries for the pairs in `which`, each listed once. */
  ghost predicate Lists(items: seq<Item>, c: Contents, which: set<Pair>) {
    && (forall i :: 0 <= i < |items| ==> PairOf(items[i]) in c && c[PairOf(items[i])] == items[i].value)
    && (forall i, j :: 0 <= i < j < |items| ==> PairOf(items[i]) != PairOf(items[j]))
    && PairsIn(items) == which
  }

  lemma ListsMore(items: seq<Item>, more: seq<Item>, c: Contents, a: set<Pair>, b: set<Pair>)
    requires Lists(items, c, a) && Lists(more, c, b) && a !! b
    ensures Lists(items + more, c, a + b)
  {
    var all := items + more;
    forall i, j | 0 <= i < j < |all| ensures PairOf(all[i]) != PairOf(all[j]) {
      if i < |items| <= j {
        assert PairOf(all[i]) in a && PairOf(all[j]) in b;
      }
    }
    forall p ensures p in PairsIn(all) <==> p in a + b {
      if p in a {
        var i :| 0 <= i < |items| && PairOf(items[i]) == p;
        assert PairOf(all[i]) == p;
      }
      if p in b {
        var i :| 0 <= i < |more| && PairOf(more[i]) == p;
        assert PairOf(all[|items| + i]) == p;
      }
    }
  }

  function Held(c: Contents, p: Pair): Option<Py> {
    if p in c then Some(c[p]) else None
  }

  lemma SameHeld(a: Contents, b: Contents)
    requires forall p :: Held(a, p) == Held(b, p)
    ensures a == b
  {
    forall p ensures p in a <==> p in b { assert Held(a, p) == Held(b, p); }
    forall p | p in a ensures a[p] == b[p] { assert Held(a, p) == Held(b, p); }
  }

  lemma AllTriplesAreText(items: seq<Item>)
    ensures AllText(TriplesOf(items))
  {
  }

  lemma ListsButLast(items: seq<Item>, c: Contents, which: set<Pair>)
    requires items != [] && Lists(items, c, which)
    ensures var n := |items| - 1;
            Lists(items[..n], c, which - {PairOf(items[n])}) && PairOf(items[n]) in which
  {
    var n := |items| - 1;
    var q := PairOf(items[n]);
    forall r ensures r in PairsIn(items[..n]) <==> r in which - {q} {
      if r in which - {q} {
        var i :| 0 <= i < |items| && PairOf(items[i]) == r;
        assert PairOf(items[..n][i]) == r;
      }
    }
  }

  lemma SetLast(d: Contents, items: seq<Item>)
    requires items != []
    ensures AllText(TriplesOf(items)) && AllText(TriplesOf(items[..|items| - 1]))
    ensures var last := items[|items| - 1];
            SetTriples(d, TriplesOf(items)) == SetTriples(d, TriplesOf(items[..|items| - 1]))[PairOf(last) := last.value]
  {
    var before, t := TriplesOf(items[..|items| - 1]), TripleOf(items[|items| - 1]);
    AllTriplesAreText(items);
    AllTriplesAreText(items[..|items| - 1]);
    LastTriple(items);
    assert AllText([t]);
    SetTriplesConcat(d, before, [t]);
    assert [t][1..] == [];
  }

  /** Stored one after the other, listed items override what was there. */
  lemma {:induction false} StoringListed(d: Contents, items: seq<Item>, c: Contents, which: set<Pair>, p: Pair)
    requires Lists(items, c, which)
    ensures AllText(TriplesOf(items))
    ensures Held(SetTriples(d, TriplesOf(items)), p) == Held(if p in which then c else d, p)
    decreases |items|
  {
    AllTriplesAreText(items);
    if items != [] {
      ListsButLast(items, c, which);
      StoringListed(d, items[..|items| - 1], c, which - {PairOf(items[|items| - 1])}, p);
      SetLast(d, items);
    }
  }

  lemma {:induction false} LastTriple(items: seq<Item>)
    requires items != []
    ensures TriplesOf(items) == TriplesOf(items[..|items| - 1]) + [TripleOf(items[|items| - 1])]
  {
    if |items| > 1 {
      LastTriple(items[1..]);
      assert items[1..][..|items| - 2] == items[..|items| - 1][1..];
    }
  }

  lemma {:induction false} ListedCount(items: seq<Item>, c: Contents, which: set<Pair>)
    requires Lists(items, c, which)
    ensures |items| == |which|
    decreases |items|
  {
    if items != [] {
      ListsButLast(items, c, which);
      ListedCount(items[..|items| - 1], c, which - {PairOf(items[|items| - 1])});
    }
  }

  lemma HeldInBoth(d: Contents, c: Contents, prefix: Option<string>, p: Pair)
    ensures Held(d + Selected(c, prefix), p) == Held(if p in Selected(c, prefix).Keys then c else d, p)
  {
  }

  /** Storing all that a prefix selects overrides a store with it, whatever the order. */
  lemma StoringSelected(d: Contents, items: seq<Item>, c: Contents, prefix: Option<string>)
    requires Lists(items, c, Selected(c, prefix).Keys)
    ensures AllText(TriplesOf(items))
    ensures SetTriples(d, TriplesOf(items)) == d + Selected(c, prefix)
    ensures |items| == |Selected(c, prefix).Keys|
  {
    AllTriplesAreText(items);
    forall p ensures Held(SetTriples(d, TriplesOf(items)), p) == Held(d + Selected(c, prefix), p) {
      StoringListed(d, items, c, Selected(c, prefix).Keys, p);
      HeldInBoth(d, c, prefix, p);
    }
    SameHeld(SetTriples(d, TriplesOf(items)), d + Selected(c, prefix));
    ListedCount(items, c, Selected(c, prefix).Keys);
  }

  // ------------------------------------------------------------------------ stores

  ghost predicate Lined<T(!new)>(items: seq<T>, s: set<T>) {
    (forall x :: x in items <==> x in s) && forall i, j :: 0 <= i < j < |items| ==> items[i] != items[j]
  }

  method LineUp(s: set<string>) returns (items: seq<string>)
    ensures Lined(items, s)
  {
    items := [];
    var rest := s;
    while rest != {}
      invariant rest <= s && Lined(items, s - rest)
      decreases |rest|
    {
      var x :| x in rest;
      items, rest := items + [x], rest - {x};
    }
  }

  /** Any backend: the operations of the protocol that carrying state needs. */
  class AnyStore {
    var contents: Contents

    constructor ()
      ensures contents == map[]
    {
      contents := map[];
    }

    method Namespaces(prefix: Option<string>) returns (out: seq<string>)
      ensures Lined(out, set p | p in contents && Selects(prefix, p.0) :: p.0)
    {
      out := LineUp(set p | p in contents && Selects(prefix, p.0) :: p.0);
    }

    method Keys(ns: string) returns (out: seq<string>)
      ensures Lined(out, set p | p in contents && p.0 == ns :: p.1)
    {
      out := LineUp(set p | p in contents && p.0 == ns :: p.1);
    }

    /** A missing key and a stored None look alike. */
    method GetMany(pairs: seq<Pair>) returns (out: seq<Py>)
      ensures |out| == |pairs|
      ensures forall i :: 0 <= i < |pairs| ==> out[i] == if pairs[i] in contents then contents[pairs[i]] else PyNone
    {
      out := [];
      for i := 0 to |pairs|
        invariant |out| == i
        invariant forall j :: 0 <= j < i ==> out[j] == if pairs[j] in contents then contents[pairs[j]] else PyNone
      {
        out := out + [if pairs[i] in contents then contents[pairs[i]] else PyNone];
      }
    }

    method Contains(p: Pair) returns (r: bool)
      ensures r == (p in contents)
    {
      r := p in contents;
    }

    /** All names are looked at before anything is stored. */
    method SetMany(triples: seq<Triple>) returns (error: Option<LoadError>)
      modifies this
      ensures error == if AllText(triples) then None else Some(NotText)
      ensures contents == if AllText(triples) then SetTriples(old(contents), triples) else old(contents)
    {
      if !AllText(triples) { return Some(NotText); }
      for i := 0 to |triples|
        invariant SetTriples(contents, triples[i..]) == SetTriples(old(contents), triples)
      {
        assert triples[i..][1..] == triples[i + 1..];
        contents := SetTriple(contents, triples[i]);
      }
      error := None;
    }
  }

  // ------------------------------------------------------------- listing a store

  function Concat(batches: seq<seq<Item>>): seq<Item> {
    if batches == [] then [] else Concat(batches[..|batches| - 1]) + batches[|batches| - 1]
  }

  /** The pairs of the namespaces listed so far. */
  ghost function PairsUnder(c: Contents, namespaces: seq<string>): set<Pair> {
    set p | p in c && p.0 in namespaces
  }

  /** The pairs of some keys of one namespace. */
  ghost function PairsOfKeys(ns: string, keys: seq<string>): set<Pair> {
    set k | k in keys :: (ns, k)
  }

  /** What the keys of a chunk give: an item each, a stored None included; none for a key
      that is gone. */
  method ItemsOf(store: AnyStore, ns: string, chunk: seq<string>) returns (items: seq<Item>)
    requires forall k :: k in chunk ==> (ns, k) in store.contents
    requires forall i, j :: 0 <= i < j < |chunk| ==> chunk[i] != chunk[j]
    ensures Lists(items, store.contents, PairsOfKeys(ns, chunk)) && |items| == |chunk|
  {
    var pairs := seq(|chunk|, i requires 0 <= i < |chunk| => (ns, chunk[i]));
    var values := store.GetMany(pairs);
    items := [];
    for i := 0 to |chunk|
      modifies {}
      invariant |items| == i
      invariant forall j :: 0 <= j < i ==> items[j] == Item(ns, chunk[j], store.contents[(ns, chunk[j])])
    {
      assert pairs[i] == (ns, chunk[i]);
      var stored := values[i] != PyNone;
      if !stored {
        stored := store.Contains((ns, chunk[i]));
      }
      if stored {
        items := items + [Item(ns, chunk[i], values[i])];
      }
    }
    ItemsAreListed(items, store.contents, ns, chunk);
  }

  lemma ItemsAreListed(items: seq<Item>, c: Contents, ns: string, chunk: seq<string>)
    requires |items| == |chunk|
    requires forall k :: k in chunk ==> (ns, k) in c
    requires forall i, j :: 0 <= i < j < |chunk| ==> chunk[i] != chunk[j]
    requires forall j :: 0 <= j < |items| ==> items[j] == Item(ns, chunk[j], c[(ns, chunk[j])])
    ensures Lists(items, c, PairsOfKeys(ns, chunk))
  {
    forall p ensures p in PairsIn(items) <==> p in PairsOfKeys(ns, chunk) {
      if p in PairsOfKeys(ns, chunk) {
        var j :| 0 <= j < |chunk| && chunk[j] == p.1;
        assert PairOf(items[j]) == p;
      }
    }
  }

  lemma ConcatMore(batches: seq<seq<Item>>, batch: seq<Item>)
    ensures Concat(batches + [batch]) == Concat(batches) + batch
  {
    assert (batches + [batch])[..|batches|] == batches;
  }

  lemma KeysOfMore(ns: string, keys: seq<string>, a: nat, b: nat)
    requires a <= b <= |keys| && forall i, j :: 0 <= i < j < |keys| ==> keys[i] != keys[j]
    ensures PairsOfKeys(ns, keys[..b]) == PairsOfKeys(ns, keys[..a]) + PairsOfKeys(ns, keys[a..b])
    ensures PairsOfKeys(ns, keys[..a]) !! PairsOfKeys(ns, keys[a..b])
  {
    assert keys[..b] == keys[..a] + keys[a..b];
    forall p | p in PairsOfKeys(ns, keys[..a]) ensures p !in PairsOfKeys(ns, keys[a..b]) {
      var i :| 0 <= i < a && keys[i] == p.1;
      forall j | 0 <= j < b - a ensures keys[a..b][j] != p.1 {
        assert keys[a + j] != keys[i];
      }
    }
  }

  lemma NextNamespace(c: Contents, namespaces: seq<string>, i: nat, keys: seq<string>)
    requires i < |namespaces| && forall j, k :: 0 <= j < k < |namespaces| ==> namespaces[j] != namespaces[k]
    requires Lined(keys, set p | p in c && p.0 == namespaces[i] :: p.1)
    ensures PairsUnder(c, namespaces[..i + 1]) == PairsUnder(c, namespaces[..i]) + PairsOfKeys(namespaces[i], keys)
    ensures PairsUnder(c, namespaces[..i]) !! PairsOfKeys(namespaces[i], keys)
    ensures forall k :: k in keys ==> (namespaces[i], k) in c
  {
    var ns := namespaces[i];
    assert namespaces[..i + 1] == namespaces[..i] + [ns];
    forall p ensures p in PairsOfKeys(ns, keys) <==> p in c && p.0 == ns {
      if p in c && p.0 == ns { assert p.1 in keys; }
      if p in PairsOfKeys(ns, keys) { assert p.1 in keys; }
    }
    forall k | k in keys ensures (ns, k) in c { assert (ns, k) in PairsOfKeys(ns, keys); }
  }

  /** The entries of one namespace, chunk by chunk. */
  method EntriesOf(store: AnyStore, ns: string, keys: seq<string>, batchSize: nat) returns (batches: seq<seq<Item>>)
    requires batchSize > 0
    requires forall k :: k in keys ==> (ns, k) in store.contents
    requires forall i, j :: 0 <= i < j < |keys| ==> keys[i] != keys[j]
    ensures Lists(Concat(batches), store.contents, PairsOfKeys(ns, keys))
    ensures forall i :: 0 <= i < |batches| ==> |batches[i]| <= batchSize
  {
    batches := [];
    var start := 0;
    while start < |keys|
      modifies {}
      invariant 0 <= start <= |keys|
      invariant Lists(Concat(batches), store.contents, PairsOfKeys(ns, keys[..start]))
      invariant forall i :: 0 <= i < |batches| ==> |batches[i]| <= batchSize
    {
      var stop := if start + batchSize < |keys| then start + batchSize else |keys|;
      var batch := ItemsOf(store, ns, keys[start..stop]);
      KeysOfMore(ns, keys, start, stop);
      ListsMore(Concat(batches), batch, store.contents, PairsOfKeys(ns, keys[..start]), PairsOfKeys(ns, keys[start..stop]));
      ConcatMore(batches, batch);
      batches := batches + [batch];
      start := stop;
    }
    assert keys[..start] == keys;
  }

  lemma {:induction false} ConcatBoth(a: seq<seq<Item>>, b: seq<seq<Item>>)
    ensures Concat(a + b) == Concat(a) + Concat(b)
    decreases |b|
  {
    if b == [] {
      assert a + b == a && Concat(a) + [] == Concat(a);
    } else {
      var n := |b| - 1;
      assert a + b == (a + b[..n]) + [b[n]];
      ConcatMore(a + b[..n], b[n]);
      ConcatBoth(a, b[..n]);
      assert Concat(a) + Concat(b[..n]) + b[n] == Concat(a) + (Concat(b[..n]) + b[n]);
    }
  }

  lemma AllNamespaces(c: Contents, prefix: Option<string>, namespaces: seq<string>)
    requires Lined(namespaces, set p | p in c && Selects(prefix, p.0) :: p.0)
    ensures PairsUnder(c, namespaces) == Selected(c, prefix).Keys
  {
    forall p | p in c ensures p.0 in namespaces <==> Selects(prefix, p.0) {
      if p.0 in namespaces {
        var q :| q in c && Selects(prefix, q.0) && q.0 == p.0;
      }
    }
  }

  /** `_entries`: everything the prefix selects, each entry once, in batches. */
  method Entries(store: AnyStore, prefix: Option<string>, batchSize: nat) returns (batches: seq<seq<Item>>)
    requires batchSize > 0
    ensures Lists(Concat(batches), store.contents, Selected(store.contents, prefix).Keys)
    ensures EachOnce(Concat(batches), store.contents, prefix)
    ensures forall i :: 0 <= i < |batches| ==> |batches[i]| <= batchSize
  {
    var namespaces := store.Namespaces(prefix);
    batches := [];
    for i := 0 to |namespaces|
      modifies {}
      invariant Lists(Concat(batches), store.contents, PairsUnder(store.contents, namespaces[..i]))
      invariant forall j :: 0 <= j < |batches| ==> |batches[j]| <= batchSize
    {
      var keys := store.Keys(namespaces[i]);
      NextNamespace(store.contents, namespaces, i, keys);
      var more := EntriesOf(store, namespaces[i], keys, batchSize);
      ListsMore(Concat(batches), Concat(more), store.contents,
                PairsUnder(store.contents, namespaces[..i]), PairsOfKeys(namespaces[i], keys));
      ConcatBoth(batches, more);
      batches := batches + more;
    }
    assert namespaces[..|namespaces|] == namespaces;
    AllNamespaces(store.contents, prefix, namespaces);
    ListedOnce(Concat(batches), store.contents, prefix);
  }

  // ---------------------------------------------------------------------- copying

  datatype CopyError = BadBatchSize

  lemma {:induction false} TriplesConcat(a: seq<Item>, b: seq<Item>)
    ensures TriplesOf(a + b) == TriplesOf(a) + TriplesOf(b)
    decreases |a|
  {
    if a == [] {
      assert a + b == b;
    } else {
      assert (a + b)[1..] == a[1..] + b;
      TriplesConcat(a[1..], b);
    }
  }

  /** One more batch stored. */
  lemma StoredSoFar(d: Contents, batches: seq<seq<Item>>, i: nat)
    requires i < |batches|
    ensures AllText(TriplesOf(Concat(batches[..i + 1])))
    ensures AllText(TriplesOf(Concat(batches[..i]))) && AllText(TriplesOf(batches[i]))
    ensures |Concat(batches[..i + 1])| == |Concat(batches[..i])| + |batches[i]|
    ensures SetTriples(d, TriplesOf(Concat(batches[..i + 1])))
         == SetTriples(SetTriples(d, TriplesOf(Concat(batches[..i]))), TriplesOf(batches[i]))
  {
    var before := Concat(batches[..i]);
    assert batches[..i + 1] == batches[..i] + [batches[i]];
    ConcatMore(batches[..i], batches[i]);
    AllTriplesAreText(before);
    AllTriplesAreText(batches[i]);
    TriplesConcat(before, batches[i]);
    SetTriplesConcat(d, TriplesOf(before), TriplesOf(batches[i]));
  }

  /** The destination holds what the source held, if the pair is taken, else what it held. */
  predicate CopiedAt(src: Contents, dst: Contents, after: Contents, prefix: Option<string>, p: Pair) {
    Held(after, p) == if Taken(src, prefix, p) then Held(src, p) else Held(dst, p)
  }

  lemma OverriddenPairs(src: Contents, dst: Contents, prefix: Option<string>)
    ensures forall p :: CopiedAt(src, dst, dst + Selected(src, prefix), prefix, p)
  {
    TakenIff(src, prefix);
    forall p ensures CopiedAt(src, dst, dst + Selected(src, prefix), prefix, p) {
      assert Taken(src, prefix, p) <==> p in Selected(src, prefix).Keys;
    }
  }

  /** `copy_store`: the destination is overridden by what the prefix selects. */
  method CopyStore(src: AnyStore, dst: AnyStore, prefix: Option<string>, batchSize: int)
    returns (r: Result<nat, CopyError>)
    modifies dst
    ensures r == if batchSize < 1 then Err(BadBatchSize) else Ok(|Selected(old(src.contents), prefix).Keys|)
    ensures dst.contents == if batchSize < 1 then old(dst.contents)
                            else old(dst.contents) + Selected(old(src.contents), prefix)
    ensures batchSize >= 1 ==> forall p :: CopiedAt(old(src.contents), old(dst.contents), dst.contents, prefix, p)
  {
    if batchSize < 1 { return Err(BadBatchSize); }
    var batches := Entries(src, prefix, batchSize);
    var copied := 0;
    for i := 0 to |batches|
      invariant AllText(TriplesOf(Concat(batches[..i])))
      invariant dst.contents == SetTriples(old(dst.contents), TriplesOf(Concat(batches[..i])))
      invariant copied == |Concat(batches[..i])|
    {
      StoredSoFar(old(dst.contents), batches, i);
      if batches[i] != [] {
        var error := dst.SetMany(TriplesOf(batches[i]));
        copied := copied + |batches[i]|;
      }
    }
    assert batches[..|batches|] == batches;
    StoringSelected(old(dst.contents), Concat(batches), old(src.contents), prefix);
    OverriddenPairs(old(src.contents), old(dst.contents), prefix);
    return Ok(copied);
  }

  // ---------------------------------------------------------------------- dumping

  lemma OneFrame(e: Item)
    requires Frame(e).Ok?
    ensures FramesOf([e]) == Written(Frame(e).value, 1, None)
  {
    FirstFrame(e, []);
    assert [e] + [] == [e] && Frame(e).value + [] == Frame(e).value;
  }

  lemma OneFrameMore(items: seq<Item>, i: nat)
    requires i < |items| && FramesOf(items[..i]).error.None? && Frame(items[i]).Ok?
    ensures var before := FramesOf(items[..i]);
            FramesOf(items[..i + 1]) == Written(before.bytes + Frame(items[i]).value, before.count + 1, None)
  {
    assert items[..i + 1] == items[..i] + [items[i]];
    OneFrame(items[i]);
    FramesConcat(items[..i], [items[i]]);
  }

  lemma NoFrame(items: seq<Item>)
    requires items != [] && Frame(items[0]).Err?
    ensures FramesOf(items) == Written([], 0, Some(Frame(items[0]).error))
  {
  }

  lemma NoFrameMore(items: seq<Item>, i: nat)
    requires i < |items| && FramesOf(items[..i]).error.None? && Frame(items[i]).Err?
    ensures var before := FramesOf(items[..i]);
            FramesOf(items) == Written(before.bytes, before.count, Some(Frame(items[i]).error))
  {
    assert items == items[..i] + items[i..];
    NoFrame(items[i..]);
    FramesConcat(items[..i], items[i..]);
    assert FramesOf(items[..i]).bytes + [] == FramesOf(items[..i]).bytes;
  }

  /** A file that is a dump of what a prefix selects, its entries in some order; `r` counts
      them, or is the error of the first entry that has no frame. */
  ghost predicate DumpOf(c: Contents, prefix: Option<string>, items: seq<Item>, file: Bytes, r: Result<nat, DumpError>) {
    && Lists(items, c, Selected(c, prefix).Keys)
    && file == FileOf(items)
    && match FramesOf(items).error
       case None => r == Ok(|Selected(c, prefix).Keys|)
       case Some(error) => r == Err(error)
  }

  /** `_write`: the header, then a frame for every entry the prefix selects. */
  method WriteDump(store: AnyStore, prefix: Option<string>) returns (file: Bytes, r: Result<nat, DumpError>)
    ensures exists items :: DumpOf(store.contents, prefix, items, file, r)
  {
    file := MAGIC + [VERSION];
    var batches := Entries(store, prefix, BATCH);
    var listed := Concat(batches);
    var count := 0;
    assert listed[..0] == [];
    for i := 0 to |listed|
      modifies {}
      invariant FramesOf(listed[..i]).error.None?
      invariant file == MAGIC + [VERSION] + FramesOf(listed[..i]).bytes && count == FramesOf(listed[..i]).count
    {
      match Frame(listed[i])
      case Err(error) =>
        NoFrameMore(listed, i);
        assert DumpOf(store.contents, prefix, listed, file, Err(error));
        return file, Err(error);
      case Ok(frame) =>
        OneFrameMore(listed, i);
        Regroup(MAGIC + [VERSION], FramesOf(listed[..i]).bytes, frame);
        file := file + frame;
        count := count + 1;
    }
    assert listed[..|listed|] == listed;
    assert listed + [] == listed;
    FramesConcat(listed, []);
    ListedCount(listed, store.contents, Selected(store.contents, prefix).Keys);
    r := Ok(count);
    assert DumpOf(store.contents, prefix, listed, file, r);
  }

  // ---------------------------------------------------------------------- loading

  /** A file open for reading. */
  class InputFile {
    const data: Bytes
    var pos: nat

    constructor (data: Bytes)
      ensures this.data == data && pos == 0
    {
      this.data := data;
      pos := 0;
    }

    ghost function Rest(): Bytes
      requires pos <= |data|
      reads this
    {
      data[pos..]
    }

    /** As many bytes as asked for, fewer at the end of the file. */
    method ReadUpTo(n: nat) returns (bytes: Bytes)
      requires pos <= |data|
      modifies this
      ensures pos <= |data| && old(Rest()) == bytes + Rest()
      ensures |bytes| == if n <= |old(Rest())| then n else |old(Rest())|
    {
      var stop := if pos + n <= |data| then pos + n else |data|;
      bytes := data[pos..stop];
      pos := stop;
    }

    /** The next frame; None at the end of the file. */
    method ReadFrame() returns (r: Result<Option<Triple>, LoadError>)
      requires pos <= |data|
      modifies this
      ensures pos <= |data|
      ensures if old(Rest()) == [] then r == Ok(None) && Rest() == []
              else match NextFrame(old(Rest()))
                case Err(error) => r == Err(error)
                case Ok(read) => r == Ok(Some(read.value)) && Rest() == read.rest
    {
      ghost var b := Rest();
      var size := ReadUpTo(4);
      if size == [] { return Ok(None); }
      if |size| != 4 { return Err(Truncated); }
      assert b[..4] == size && Rest() == b[4..];
      var length := FromBigEndian(size);
      var frame := ReadUpTo(length);
      if |frame| != length { return Err(Truncated); }
      assert b == size + (frame + Rest());
      assert b[4..4 + length] == frame && b[4 + length..] == Rest();
      match TripleOfFrame(frame)
      case Err(error) => return Err(error);
      case Ok(t) => return Ok(Some(t));
    }
  }

  /** Entries read and not stored yet, in front of those still to come. */
  function Pending(batch: seq<Triple>, p: Parsed): Parsed {
    Parsed(batch + p.triples, p.end)
  }

  lemma OneTripleRead(batch: seq<Triple>, t: Triple, p: Parsed)
    ensures Pending(batch, Prefixed(t, p)) == Pending(batch + [t], p)
  {
    assert batch + ([t] + p.triples) == batch + [t] + p.triples;
  }

  lemma OneBatchLess(c: Contents, batch: seq<Triple>, p: Parsed)
    requires |batch| == BATCH
    ensures LoadInBatches(c, Pending(batch, p), BATCH)
         == if AllText(batch) then LoadInBatches(SetTriples(c, batch), Pending([], p), BATCH) else Loaded(c, Some(NotText))
  {
    assert (batch + p.triples)[..BATCH] == batch && (batch + p.triples)[BATCH..] == [] + p.triples;
  }

  lemma NothingPending(batch: seq<Triple>, p: Parsed, end: Option<LoadError>)
    ensures Pending([], p) == p && Pending(batch, Parsed([], end)) == Parsed(batch, end)
  {
    assert [] + p.triples == p.triples && batch + [] == batch;
  }

  /** The loop of `_read` over the frames. */
  method LoadFrames(f: InputFile, store: AnyStore) returns (error: Option<LoadError>)
    requires f.pos <= |f.data|
    modifies f, store
    ensures Loaded(store.contents, error) == LoadInBatches(old(store.contents), ParseFrames(old(f.Rest())), BATCH)
  {
    ghost var all := LoadInBatches(store.contents, ParseFrames(f.Rest()), BATCH);
    var batch: seq<Triple> := [];
    NothingPending([], ParseFrames(f.Rest()), None);
    while true
      invariant f.pos <= |f.data| && |batch| < BATCH
      invariant LoadInBatches(store.contents, Pending(batch, ParseFrames(f.Rest())), BATCH) == all
      decreases |f.data| - f.pos
    {
      ghost var rest := f.Rest();
      var r := f.ReadFrame();
      match r
      case Err(e) =>
        NothingPending(batch, ParseFrames(rest), Some(e));
        return Some(e);
      case Ok(None) =>
        NothingPending(batch, ParseFrames(rest), None);
        break;
      case Ok(Some(t)) =>
        OneTripleRead(batch, t, ParseFrames(f.Rest()));
        batch := batch + [t];
        if |batch| >= BATCH {
          OneBatchLess(store.contents, batch, ParseFrames(f.Rest()));
          error := store.SetMany(batch);
          if error.Some? { return; }
          batch := [];
        }
    }
    error := None;
    if batch != [] {
      error := store.SetMany(batch);
    }
  }

  /** `_read`. */
  method LoadDump(f: InputFile, store: AnyStore) returns (error: Option<LoadError>)
    requires f.pos <= |f.data|
    modifies f, store
    ensures Loaded(store.contents, error) == LoadInBatches(old(store.contents), ParseFile(old(f.Rest())), BATCH)
  {
    ghost var file := f.Rest();
    var header := f.ReadUpTo(|MAGIC| + 1);
    assert file == header + f.Rest();
    if |header| < |MAGIC| || header[..|MAGIC|] != MAGIC {
      assert |file| >= |MAGIC| ==> file[..|MAGIC|] == header[..|MAGIC|];
      return Some(BadHeader);
    }
    assert file[..|MAGIC|] == MAGIC;
    if |header| == |MAGIC| { return Some(NoVersion); }
    assert file[|MAGIC|] == header[|MAGIC|] && file[|MAGIC| + 1..] == f.Rest();
    if header[|MAGIC|] != VERSION { return Some(BadVersion(header[|MAGIC|])); }
    error := LoadFrames(f, store);
  }

  // ------------------------------------------------------------------- main results

  /** All values of a store come from it. */
  ghost predicate Stored(c: Contents) {
    forall p :: p in c ==> FromStore(c[p])
  }

  lemma ListedAreFromStore(items: seq<Item>, c: Contents, which: set<Pair>)
    requires Lists(items, c, which) && Stored(c)
    ensures AllFromStore(items)
  {
  }

  /** Loading the dump of a store into any store overrides that store with what the dump
      selected, stored Nones included, whatever the order of the entries and the size of the
      batches. */
  lemma LoadingADumpOverrides(d: Contents, c: Contents, prefix: Option<string>, items: seq<Item>, batch: nat)
    requires batch > 0 && Stored(c)
    requires Lists(items, c, Selected(c, prefix).Keys) && FramesOf(items).error.None?
    ensures LoadInBatches(d, ParseFile(FileOf(items)), batch) == Loaded(d + Selected(c, prefix), None)
  {
    WholeFileIsParsed(items, c, Selected(c, prefix).Keys);
    StoringSelected(d, items, c, prefix);
    BatchesDoNotMatter(d, Parsed(TriplesOf(items), None), batch);
  }

  /** A dump that was written without an error, loaded into any store. */
  lemma DumpThenLoad(d: Contents, c: Contents, prefix: Option<string>, items: seq<Item>, file: Bytes,
                     r: Result<nat, DumpError>, batch: nat)
    requires batch > 0 && Stored(c) && DumpOf(c, prefix, items, file, r) && r.Ok?
    ensures LoadInBatches(d, ParseFile(file), batch) == Loaded(d + Selected(c, prefix), None)
  {
    LoadingADumpOverrides(d, c, prefix, items, batch);
  }

  lemma WholeFileIsParsed(items: seq<Item>, c: Contents, which: set<Pair>)
    requires Lists(items, c, which) && Stored(c) && FramesOf(items).error.None?
    ensures ParseFile(FileOf(items)) == Parsed(TriplesOf(items), None)
  {
    ListedAreFromStore(items, c, which);
    FileIsParsed(FramesOf(items).bytes);
    FramesAreParsed(items, []);
    assert FramesOf(items).bytes + [] == FramesOf(items).bytes && TriplesOf(items) + [] == TriplesOf(items);
  }

  /** Everything parsed is loaded if nothing broke the file, else what fills whole batches. */
  lemma LoadingParsed(d: Contents, p: Parsed, batch: nat) returns (times: nat)
    requires batch > 0 && AllText(p.triples)
    ensures var loaded := LoadInBatches(d, p, batch);
            && loaded.error == p.end
            && (p.end.None? ==> loaded.contents == SetTriples(d, p.triples))
            && (p.end.Some? ==> LoadedBatches(d, p.triples, loaded.contents, times * batch))
    ensures times * batch == InFullBatches(|p.triples|, batch)
  {
    BatchesDoNotMatter(d, p, batch);
    times := FullBatchesAreWhole(|p.triples|, batch);
    if p.end.Some? {
      var _ := BrokenFileLeavesBatches(d, p, batch);
      assert InFullBatches(|p.triples|, batch) <= |p.triples|;
    }
  }

  /** What loading the first `n` entries leaves. */
  ghost predicate LoadedBatches(d: Contents, triples: seq<Triple>, loaded: Contents, n: nat) {
    && n <= |triples| && AllText(triples[..n])
    && loaded == SetTriples(d, triples[..n])
  }

  /** Loading a dump that was cut off anywhere past its magic: on the first byte of the
      frame of `items[j]`, exactly the entries before it are loaded; inside that frame the
      load fails as truncated and leaves the `times` full batches of the entries before it.
      Cut inside the header, it fails and leaves nothing. */
  lemma LoadingACutDump(d: Contents, c: Contents, which: set<Pair>, items: seq<Item>, at: nat, batch: nat)
    returns (j: nat, times: nat)
    requires batch > 0 && Stored(c) && Lists(items, c, which) && FramesOf(items).error.None?
    requires at < |FileOf(items)|
    ensures at > |MAGIC| ==> FallsIn(items, at, j)
    ensures j <= |items| && times * batch == InFullBatches(j, batch) && AllText(TriplesOf(items[..j]))
    ensures var loaded := LoadInBatches(d, ParseFile(FileOf(items)[..at]), batch);
            if at <= |MAGIC| then loaded == Loaded(d, Some(if at < |MAGIC| then BadHeader else NoVersion))
            else if at == |FileOf(items[..j])| then loaded == Loaded(SetTriples(d, TriplesOf(items[..j])), None)
            else loaded.error == Some(Truncated) && LoadedBatches(d, TriplesOf(items[..j]), loaded.contents, times * batch)
  {
    ListedAreFromStore(items, c, which);
    j := CutDumpIsRefused(items, at);
    AllTriplesAreText(items[..j]);
    times := LoadingParsed(d, ParseFile(FileOf(items)[..at]), batch);
    if at <= |MAGIC| {
      assert items[..0] == [];
      HeaderCutLoadsNothing(d, ParseFile(FileOf(items)[..at]), batch);
    }
  }

  lemma HeaderCutLoadsNothing(d: Contents, p: Parsed, batch: nat)
    requires batch > 0 && p.triples == [] && p.end.Some?
    ensures LoadInBatches(d, p, batch) == Loaded(d, p.end)
  {
  }

  lemma {:induction false} AllFramesFit(items: seq<Item>)
    ensures FramesOf(items).error.None? <==> forall i :: 0 <= i < |items| ==> Frame(items[i]).Ok?
    decreases |items|
  {
    if items != [] {
      AllFramesFit(items[1..]);
      if forall i :: 0 <= i < |items[1..]| ==> Frame(items[1..][i]).Ok? {
        forall i | 1 <= i < |items| ensures Frame(items[i]).Ok? {
          assert items[i] == items[1..][i - 1];
        }
      }
    }
  }

  /** A store has a dump exactly when every selected entry has a frame: when its names fit
      the format, its value nests within one level less than a store allows, and the frame
      is shorter than four bytes can count. */
  lemma DumpedIff(items: seq<Item>, c: Contents, which: set<Pair>)
    requires Stored(c) && Lists(items, c, which)
    ensures FramesOf(items).error.None? <==> forall p: Pair :: p in which ==> FitsFrame(Item(p.0, p.1, c[p]))
  {
    AllFramesFit(items);
    forall i | 0 <= i < |items| ensures Frame(items[i]).Ok? <==> FitsFrame(items[i]) {
      FrameIff(items[i]);
    }
    if forall p: Pair :: p in which ==> FitsFrame(Item(p.0, p.1, c[p])) {
      forall i | 0 <= i < |items| ensures Frame(items[i]).Ok? {
        var p := PairOf(items[i]);
        assert p in PairsIn(items);
        assert items[i] == Item(p.0, p.1, c[p]);
      }
    } else {
      var p: Pair :| p in which && !FitsFrame(Item(p.0, p.1, c[p]));
      var i :| 0 <= i < |items| && PairOf(items[i]) == p;
      assert items[i] == Item(p.0, p.1, c[p]);
    }
  }
}
