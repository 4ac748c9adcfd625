/** Pending-write keys: `task_id <SEP> idx`, printed, parsed back and sorted. */
module WriteKeys {
  import opened Wrappers
  import Text

  /** The unit separator that joins the parts of a stored key. */
  const SEP: char := '\U{1f}'

  /** Where a write sits in its checkpoint: its task and its (possibly negative) index. */
  datatype Slot = Slot(task: string, idx: int)

  // ------------------------------------------------------------ decimal text

  function Digit(d: nat): (c: char)
    requires d < 10
  {
    '0' + d as char
  }

  predicate IsDigit(c: char) {
    '0' <= c <= '9'
  }

  function PrintNat(n: nat): (s: string)
    ensures s != [] && forall i :: 0 <= i < |s| ==> IsDigit(s[i])
  {
    if n < 10 then [Digit(n)] else PrintNat(n / 10) + [Digit(n % 10)]
  }

  /** `str(i)`. */
  function PrintInt(i: int): string {
    if i < 0 then "-" + PrintNat(-i) else PrintNat(i)
  }

  function ParseNat(s: string): Option<nat> {
    if s == [] then None
    else
      var last := s[|s| - 1];
      if !IsDigit(last) then None
      else
        var d := (last as int) - ('0' as int);
        if |s| == 1 then Some(d)
        else match ParseNat(s[..|s| - 1])
          case None => None
          case Some(n) => Some(10 * n + d)
  }

  /** `int(text)`, on the decimal texts a key can hold; anything else is an error. */
  function ParseInt(s: string): Option<int> {
    if s != [] && s[0] == '-' then
      match ParseNat(s[1..])
      case None => None
      case Some(n) =>
        var i: int := -(n as int);
        Some(i)
    else
      match ParseNat(s)
      case None => None
      case Some(n) => Some(n)
  }

  lemma {:induction false} ParsePrintNat(n: nat)
    ensures ParseNat(PrintNat(n)) == Some(n)
  {
    if n >= 10 {
      ParsePrintNat(n / 10);
      var s := PrintNat(n);
      assert s[..|s| - 1] == PrintNat(n / 10);
    }
  }

  lemma ParsePrintInt(i: int)
    ensures ParseInt(PrintInt(i)) == Some(i)
    ensures SEP !in PrintInt(i)
  {
    if i < 0 {
      var digits := PrintNat(-i);
      ParsePrintNat(-i);
      assert PrintInt(i)[0] == '-' && PrintInt(i)[1..] == digits;
    } else {
      ParsePrintNat(i);
      assert IsDigit(PrintInt(i)[0]);
    }
  }

  // -------------------------------------------------------------------- keys

  /** The stored key of a slot. */
  function Key(slot: Slot): string {
    slot.task + [SEP] + PrintInt(slot.idx)
  }

  /** `key.rpartition(SEP)`, as the parts before and after the last separator. */
  function RPartition(key: string): (string, string) {
    if key == [] then ([], [])
    else if key[|key| - 1] == SEP then (key[..|key| - 1], [])
    else
      var (head, tail) := RPartition(key[..|key| - 1]);
      (head, tail + [key[|key| - 1]])
  }

  /** `_write_order`: the slot a key stands for. */
  function WriteOrder(key: string): Option<Slot> {
    var (task, idx) := RPartition(key);
    match ParseInt(idx)
    case None => None
    case Some(i) => Some(Slot(task, i))
  }

  lemma {:induction false} RPartitionAtLastSeparator(head: string, tail: string)
    requires SEP !in tail
    ensures RPartition(head + [SEP] + tail) == (head, tail)
  {
    var key := head + [SEP] + tail;
    if tail == [] {
      assert key == head + [SEP];
      assert key[..|key| - 1] == head;
    } else {
      var shorter := tail[..|tail| - 1];
      assert key[..|key| - 1] == head + [SEP] + shorter;
      RPartitionAtLastSeparator(head, shorter);
      assert tail == shorter + [key[|key| - 1]];
    }
  }

  /** Parsing a key undoes printing it, whatever the task id contains. */
  lemma ParseUndoesPrint(slot: Slot)
    ensures WriteOrder(Key(slot)) == Some(slot)
  {
    ParsePrintInt(slot.idx);
    RPartitionAtLastSeparator(slot.task, PrintInt(slot.idx));
  }

  /** So two slots never share a key. */
  lemma KeysAreInjective(a: Slot, b: Slot)
    requires Key(a) == Key(b)
    ensures a == b
  {
    ParseUndoesPrint(a);
    ParseUndoesPrint(b);
  }

  // ----------------------------------------------------------------- sorting

  /** `(task_id, idx)` tuple order. */
  predicate Before(a: Slot, b: Slot) {
    Text.Less(a.task, b.task) || (a.task == b.task && a.idx < b.idx)
  }

  lemma BeforeIsTotalOrder(a: Slot, b: Slot)
    ensures a == b || Before(a, b) || Before(b, a)
    ensures Before(a, b) ==> !Before(b, a) && a != b
  {
    Text.LessIsTotal(a.task, b.task);
    if Text.Less(a.task, b.task) { Text.LessIsAsymmetric(a.task, b.task); }
    if Text.Less(b.task, a.task) { Text.LessIsAsymmetric(b.task, a.task); }
  }

  lemma BeforeIsTransitive(a: Slot, b: Slot, c: Slot)
    requires Before(a, b) && Before(b, c)
    ensures Before(a, c)
  {
    if Text.Less(a.task, b.task) && Text.Less(b.task, c.task) {
      Text.LessIsTransitive(a.task, b.task, c.task);
    }
  }

  predicate IsLast(m: Slot, s: set<Slot>) {
    m in s && forall x :: x in s && x != m ==> Before(x, m)
  }

  lemma LastExists(s: set<Slot>)
    requires s != {}
    ensures exists m :: IsLast(m, s)
  {
    var m :| m in s;
    if s == {m} {
      assert IsLast(m, s);
    } else {
      LastExists(s - {m});
      var other :| IsLast(other, s - {m});
      BeforeIsTotalOrder(m, other);
      if Before(m, other) {
        assert IsLast(other, s);
      } else {
        forall x | x in s && x != m ensures Before(x, m) {
          if x != other { BeforeIsTransitive(x, other, m); }
        }
        assert IsLast(m, s);
      }
    }
  }

  lemma LastIsUnique(s: set<Slot>, a: Slot, b: Slot)
    requires IsLast(a, s) && IsLast(b, s)
    ensures a == b
  {
    BeforeIsTotalOrder(a, b);
    BeforeIsTotalOrder(b, a);
  }

  function Last(s: set<Slot>): (m: Slot)
    requires s != {}
    ensures IsLast(m, s)
  {
    LastExists(s);
    assert forall a, b :: IsLast(a, s) && IsLast(b, s) ==> a == b by {
      forall a, b | IsLast(a, s) && IsLast(b, s) ensures a == b { LastIsUnique(s, a, b); }
    }
    var m :| m in s && IsLast(m, s);
    m
  }

  predicate Sorted(r: seq<Slot>) {
    forall i, j :: 0 <= i < j < |r| ==> Before(r[i], r[j])
  }

  /** `sorted(keys, key=_write_order)`, on the slots the keys stand for. */
  function SortedSlots(s: set<Slot>): (r: seq<Slot>)
    ensures forall x :: x in r <==> x in s
    ensures Sorted(r)
  {
    if s == {} then [] else
      var m := Last(s);
      var init := SortedSlots(s - {m});
      assert forall x :: x in s <==> x == m || x in init;
      init + [m]
  }

  /** There is only one way to lay the slots out in order, so it does not matter
      which order the store listed the keys in, nor which sort was used. */
  lemma {:induction false} SortingIsCanonical(a: seq<Slot>, b: seq<Slot>)
    requires Sorted(a) && Sorted(b)
    requires forall x :: x in a <==> x in b
    ensures a == b
  {
    assert a != [] ==> a[0] in b;
    assert b != [] ==> b[0] in a;
    if a != [] && b != [] {
      var la, lb := a[|a| - 1], b[|b| - 1];
      assert la in b && lb in a;
      BeforeIsTotalOrder(la, lb);
      BeforeIsTotalOrder(lb, la);
      assert la == lb;
      var a', b' := a[..|a| - 1], b[..|b| - 1];
      forall x ensures x in a' <==> x in b' {
        SnocMembers(a, x);
        SnocMembers(b, x);
      }
      SortingIsCanonical(a', b');
      assert a == a' + [la] && b == b' + [lb];
    }
  }

  lemma SnocMembers(r: seq<Slot>, x: Slot)
    requires r != [] && Sorted(r)
    ensures x in r[..|r| - 1] <==> x in r && x != r[|r| - 1]
  {
    var m := r[|r| - 1];
    if x in r && x != m {
      var i :| 0 <= i < |r| && r[i] == x;
      assert r[..|r| - 1][i] == x;
    }
    if x in r[..|r| - 1] {
      var i :| 0 <= i < |r| - 1 && r[i] == x;
      BeforeIsTotalOrder(r[i], m);
    }
  }

  lemma {:induction false} SortedSlotsCount(s: set<Slot>)
    ensures |SortedSlots(s)| == |s|
  {
    if s != {} {
      SortedSlotsCount(s - {Last(s)});
    }
  }
}
