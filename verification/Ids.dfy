/** Checkpoint ids and the orderings the saver takes of them.

    The saver only ever compares ids (`max`, `sorted`, `ids[-keep:]`), so a
    checkpoint id is modelled by its position in that total order. */
module Ids {
  type Id = nat

  /** How many checkpoints to keep: at least one, as `ids[-keep:]` needs it. */
  type Keep = n: nat | n > 0 witness 1

  /** `max(ids)`. */
  function MaxId(s: set<Id>): (m: Id)
    requires s != {}
    ensures m in s && forall x :: x in s ==> x <= m
  {
    MaxExists(s);
    var m :| Greatest(s, m);
    m
  }

  predicate Greatest(s: set<Id>, m: Id) {
    m in s && forall x :: x in s ==> x <= m
  }

  lemma OneGreater(s: set<Id>, x: Id, m: Id)
    requires x in s && Greatest(s - {x}, m)
    ensures Greatest(s, if m < x then x else m)
  {
    forall y | y in s ensures y <= if m < x then x else m {
      if y != x { assert y in s - {x}; }
    }
  }

  lemma {:induction false} MaxExists(s: set<Id>)
    requires s != {}
    ensures exists m :: Greatest(s, m)
  {
    var x :| x in s;
    if s - {x} == {} {
      assert forall y :: y in s ==> y !in s - {x} ==> y == x;
      assert Greatest(s, x);
    } else {
      MaxExists(s - {x});
      var m :| Greatest(s - {x}, m);
      OneGreater(s, x, m);
    }
  }

  /** `sorted(ids)`. */
  function SortedIds(s: set<Id>): (r: seq<Id>)
    ensures forall x :: x in r <==> x in s
    ensures forall i, j :: 0 <= i < j < |r| ==> r[i] < r[j]
  {
    if s == {} then [] else
      var m := MaxId(s);
      var init := SortedIds(s - {m});
      assert forall x :: x in s <==> x == m || x in init;
      init + [m]
  }

  /** The newest `n` of `s`: the set behind `sorted(s)[-n:]`. */
  function Newest(s: set<Id>, n: nat): (r: set<Id>)
    ensures r <= s
  {
    if s == {} || n == 0 then {} else
      var m := MaxId(s);
      {m} + Newest(s - {m}, n - 1)
  }

  /** `ids[-n:]` for positive `n`. */
  function Tail(ids: seq<Id>, n: nat): seq<Id> {
    if |ids| <= n then ids else ids[|ids| - n..]
  }

  function Elements(ids: seq<Id>): set<Id> {
    set x | x in ids
  }

  predicate Ascending(ids: seq<Id>) {
    forall i, j :: 0 <= i < j < |ids| ==> ids[i] < ids[j]
  }

  /** The last of an ascending list is its greatest. */
  lemma LastIsGreatest(ids: seq<Id>)
    requires Ascending(ids) && ids != []
    ensures var n := |ids| - 1;
            && Ascending(ids[..n])
            && Elements(ids) != {} && MaxId(Elements(ids)) == ids[n]
            && Elements(ids) - {ids[n]} == Elements(ids[..n])
  {
    var n := |ids| - 1;
    assert ids[n] in Elements(ids);
    assert ids == ids[..n] + [ids[n]];
  }

  lemma InTailOfLast(ids: seq<Id>, n: nat, x: Id)
    requires ids != [] && n > 0
    ensures x in Tail(ids, n) <==> x == ids[|ids| - 1] || x in Tail(ids[..|ids| - 1], n - 1)
  {
    assert Tail(ids, n) == Tail(ids[..|ids| - 1], n - 1) + [ids[|ids| - 1]];
  }

  lemma InNewestOf(s: set<Id>, n: nat, m: Id, x: Id)
    requires s != {} && n > 0 && m == MaxId(s)
    ensures x in Newest(s, n) <==> x == m || x in Newest(s - {m}, n - 1)
  {
  }

  lemma {:induction false} InWindow(ids: seq<Id>, n: nat, x: Id)
    requires Ascending(ids)
    ensures x in Tail(ids, n) <==> x in Newest(Elements(ids), n)
    decreases |ids|
  {
    if ids == [] || n == 0 {
      assert Tail(ids, n) == [];
    } else {
      LastIsGreatest(ids);
      InTailOfLast(ids, n, x);
      InNewestOf(Elements(ids), n, ids[|ids| - 1], x);
      InWindow(ids[..|ids| - 1], n - 1, x);
    }
  }

  /** `sorted(s)[-n:]` is the window. */
  lemma NewestIsSortedTail(s: set<Id>, n: nat)
    ensures Elements(Tail(SortedIds(s), n)) == Newest(s, n)
  {
    assert Elements(SortedIds(s)) == s;
    forall x ensures x in Tail(SortedIds(s), n) <==> x in Newest(s, n) {
      InWindow(SortedIds(s), n, x);
    }
  }

  lemma {:induction false} NewestGrows(s: set<Id>, n: nat)
    ensures Newest(s, n) <= Newest(s, n + 1)
  {
    if s != {} && n != 0 {
      NewestGrows(s - {MaxId(s)}, n - 1);
    }
  }

  /** A new id above every old one pushes the window by one. */
  lemma NewestAfterPut(s: set<Id>, m: Id, n: nat)
    requires n > 0 && forall x :: x in s ==> x < m
    ensures Newest(s + {m}, n) == {m} + Newest(s, n - 1)
    ensures Newest(s + {m}, n) <= {m} + Newest(s, n)
  {
    assert MaxId(s + {m}) == m;
    assert (s + {m}) - {m} == s;
    NewestGrows(s, n - 1);
  }

  /** Dropping ids outside the window leaves the window as it was. */
  lemma {:induction false} NewestOfSubset(all: set<Id>, some: set<Id>, n: nat)
    requires some <= all && Newest(all, n) <= some
    ensures Newest(some, n) == Newest(all, n)
  {
    if all != {} && n != 0 {
      var m := MaxId(all);
      assert MaxId(some) == m;
      forall x | x in Newest(all - {m}, n - 1) ensures x in some - {m} {
        assert x in Newest(all, n);
      }
      NewestOfSubset(all - {m}, some - {m}, n - 1);
    }
  }
}
