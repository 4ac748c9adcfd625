/** The names under which the rows of a thread are stored.

    A name joins its parts with the separator, and nothing keeps the separator out of a
    thread id. `ThreadRows` treats threads, namespaces, checkpoints and kinds as separate
    maps; here is exactly when the printed names keep them apart, and which names the saver
    picks for a thread. */
module StoredNames {
  import opened WriteKeys
  import Text

  /** The four kinds of rows: checkpoints, pending writes, channel blobs, pointers. */
  datatype Name =
    | Ck(thread: string, ns: string)
    | Wr(thread: string, ns: string, id: string)
    | Bl(thread: string, ns: string)
    | Lt

  predicate Clean(s: string) {
    SEP !in s
  }

  /** Checkpoint namespaces and checkpoint ids are free of the separator. */
  predicate CleanTail(n: Name) {
    match n
    case Ck(_, ns) => Clean(ns)
    case Wr(_, ns, id) => Clean(ns) && Clean(id)
    case Bl(_, ns) => Clean(ns)
    case Lt => true
  }

  /** The parts that `ns.split(SEP)` gives back. */
  function Parts(n: Name): seq<string> {
    match n
    case Ck(thread, ns) => ["ck", thread, ns]
    case Wr(thread, ns, id) => ["wr", thread, ns, id]
    case Bl(thread, ns) => ["bl", thread, ns]
    case Lt => ["lt"]
  }

  /** `SEP.join(parts)`. */
  function Join(parts: seq<string>): string
    requires parts != []
  {
    if |parts| == 1 then parts[0] else parts[0] + [SEP] + Join(parts[1..])
  }

  /** `_ckpt_ns`, `_writes_ns`, `_blobs_ns` and the pointer namespace. */
  function Printed(n: Name): string {
    Join(Parts(n))
  }

  /** `text.split(SEP)`. */
  function Split(text: string): (parts: seq<string>)
    ensures parts != []
  {
    if text == [] then [[]]
    else
      var rest := Split(text[1..]);
      if text[0] == SEP then [[]] + rest else [[text[0]] + rest[0]] + rest[1..]
  }

  lemma {:induction false} SplitClean(s: string)
    requires Clean(s)
    ensures Split(s) == [s]
  {
    if s != [] {
      SplitClean(s[1..]);
      assert [s[0]] + s[1..] == s;
    }
  }

  lemma {:induction false} SplitFirst(s: string, rest: string)
    requires Clean(s)
    ensures Split(s + [SEP] + rest) == [s] + Split(rest)
  {
    var text := s + [SEP] + rest;
    if s == [] {
      assert text[1..] == rest;
    } else {
      assert text[1..] == s[1..] + [SEP] + rest;
      SplitFirst(s[1..], rest);
      assert [s[0]] + s[1..] == s;
    }
  }

  lemma {:induction false} PartsAreClean(text: string)
    ensures forall p :: p in Split(text) ==> Clean(p)
  {
    if text != [] {
      PartsAreClean(text[1..]);
      var rest := Split(text[1..]);
      forall p | p in Split(text) ensures Clean(p) {
        if text[0] == SEP {
          assert p == [] || p in rest;
        } else if p !in rest[1..] {
          assert p == [text[0]] + rest[0] && rest[0] in rest;
        }
      }
    }
  }

  lemma {:induction false} SplitConcat(a: string, b: string)
    ensures Split(a + [SEP] + b) == Split(a) + Split(b)
    decreases |a|
  {
    var text := a + [SEP] + b;
    if a == [] {
      assert text[1..] == b && Split([]) == [[]];
    } else {
      assert text[1..] == a[1..] + [SEP] + b;
      SplitConcat(a[1..], b);
    }
  }

  // ------------------------------------------------------------- two-part keys

  /** `channel SEP version` of a blob, `thread SEP namespace` of a pointer. */
  function TwoPartKey(first: string, second: string): string {
    first + [SEP] + second
  }

  /** `v` ends with the separator and `w`. */
  predicate Extends(v: string, w: string) {
    |v| > |w| && v[|v| - |w| - 1..] == [SEP] + w
  }

  lemma SameKeyParts(a: string, v: string, b: string, w: string)
    requires TwoPartKey(a, v) == TwoPartKey(b, w) && |v| >= |w|
    ensures (a == b && v == w) || Extends(v, w)
  {
    var key := TwoPartKey(a, v);
    assert key[|a|..] == [SEP] + v && key[|b|..] == [SEP] + w;
    if |v| == |w| {
      assert a == key[..|a|] && b == key[..|b|];
      assert v == ([SEP] + v)[1..] && w == ([SEP] + w)[1..];
    } else {
      assert |b| == |a| + 1 + (|v| - |w| - 1);
      assert key[|a| + 1..] == v;
      assert v[|v| - |w| - 1..] == key[|b|..];
    }
  }

  lemma ExtendedCollides(v: string, w: string)
    requires Extends(v, w)
    ensures TwoPartKey("", v) == TwoPartKey(TwoPartKey("", v[..|v| - |w| - 1]), w) && v != w
  {
    var x := v[..|v| - |w| - 1];
    assert v == x + ([SEP] + w);
  }

  ghost predicate Collide(v: string, w: string) {
    exists a, b :: (a != b || v != w) && TwoPartKey(a, v) == TwoPartKey(b, w)
  }

  /** Two second parts let two different keys print alike exactly when one of them ends with
      the separator and the other. Versions as LangGraph counts them never hold the
      separator, so its blobs never share a key; nor do pointers of clean namespaces. */
  lemma KeysCollideIff(v: string, w: string)
    ensures Collide(v, w) <==> Extends(v, w) || Extends(w, v)
  {
    if Collide(v, w) {
      var a, b :| (a != b || v != w) && TwoPartKey(a, v) == TwoPartKey(b, w);
      if |v| >= |w| {
        SameKeyParts(a, v, b, w);
      } else {
        SameKeyParts(b, w, a, v);
      }
    }
    if Extends(v, w) {
      ExtendedCollides(v, w);
    }
    if Extends(w, v) {
      ExtendedCollides(w, v);
    }
  }

  /** In particular there is none without the separator. */
  lemma TwoPartKeysAreInjective(a: string, v: string, b: string, w: string)
    requires Clean(v) && Clean(w) && TwoPartKey(a, v) == TwoPartKey(b, w)
    ensures a == b && v == w
  {
    RPartitionAtLastSeparator(a, v);
    RPartitionAtLastSeparator(b, w);
  }

  /** A version with the separator in it could be taken for a longer channel name. */
  lemma SeparatorInVersion(a: string, b: string, c: string)
    ensures TwoPartKey(a, TwoPartKey(b, c)) == TwoPartKey(TwoPartKey(a, b), c)
  {
  }

  // ---------------------------------------------------------- names keep rows apart

  function Kind(n: Name): string {
    Parts(n)[0]
  }

  lemma JoinCons(first: string, rest: seq<string>)
    requires rest != []
    ensures Join([first] + rest) == first + [SEP] + Join(rest)
  {
    assert ([first] + rest)[1..] == rest;
  }

  lemma JoinThree(a: string, b: string, c: string)
    ensures Join([a, b, c]) == TwoPartKey(TwoPartKey(a, b), c)
  {
    JoinCons(b, [c]);
    JoinCons(a, [b, c]);
    assert [b] + [c] == [b, c] && [a] + [b, c] == [a, b, c];
  }

  lemma JoinFour(a: string, b: string, c: string, d: string)
    ensures Join([a, b, c, d]) == TwoPartKey(TwoPartKey(TwoPartKey(a, b), c), d)
  {
    JoinThree(b, c, d);
    JoinCons(a, [b, c, d]);
    assert [a] + [b, c, d] == [a, b, c, d];
  }

  lemma PrintedParts(n: Name)
    ensures match n
            case Ck(thread, ns) => Printed(n) == TwoPartKey(TwoPartKey("ck", thread), ns)
            case Wr(thread, ns, id) => Printed(n) == TwoPartKey(TwoPartKey(TwoPartKey("wr", thread), ns), id)
            case Bl(thread, ns) => Printed(n) == TwoPartKey(TwoPartKey("bl", thread), ns)
            case Lt => Printed(n) == "lt"
  {
    match n
    case Ck(thread, ns) => JoinThree("ck", thread, ns);
    case Wr(thread, ns, id) => JoinFour("wr", thread, ns, id);
    case Bl(thread, ns) => JoinThree("bl", thread, ns);
    case Lt =>
  }

  /** The first two characters tell the kind. */
  lemma KindIsPrinted(n: Name)
    ensures |Printed(n)| >= 2 && Printed(n)[..2] == Kind(n)
  {
    PrintedParts(n);
  }

  /** No two rows share a namespace unless they are of one kind, thread, namespace and
      checkpoint, whatever the threads are called. */
  lemma NamesAreInjective(a: Name, b: Name)
    requires CleanTail(a) && CleanTail(b) && Printed(a) == Printed(b)
    ensures a == b
  {
    KindIsPrinted(a);
    KindIsPrinted(b);
    assert Kind(a) == Kind(b);
    PrintedParts(a);
    PrintedParts(b);
    if a.Wr? {
      TwoPartKeysAreInjective(TwoPartKey(TwoPartKey("wr", a.thread), a.ns), a.id,
                              TwoPartKey(TwoPartKey("wr", b.thread), b.ns), b.id);
    }
    if !a.Lt? {
      var kind := Kind(a);
      TwoPartKeysAreInjective(TwoPartKey(kind, a.thread), a.ns, TwoPartKey(kind, b.thread), b.ns);
      assert TwoPartKey(kind, a.thread)[3..] == a.thread && TwoPartKey(kind, b.thread)[3..] == b.thread;
    }
  }

  // ---------------------------------------------------------- picking a thread's names

  /** `_thread_namespaces`: the prefix query, then the check on the split name. */
  predicate Picked(name: string, kind: string, thread: string) {
    Text.StartsWith(name, kind + [SEP] + thread + [SEP]) && |Split(name)| > 1 && Split(name)[1] == thread
  }

  /** `longer` is another thread whose id begins with `thread` and the separator. */
  predicate LongerId(longer: string, thread: string) {
    Text.StartsWith(longer, thread + [SEP])
  }

  lemma {:induction false} FirstPart(s: string, first: string)
    requires Clean(first)
    ensures Split(s)[0] == first <==> s == first || LongerId(s, first)
  {
    if Split(s)[0] == first {
      SplitsAfterFirst(s);
    }
    if s == first {
      SplitClean(s);
    } else if LongerId(s, first) {
      var rest := s[|first| + 1..];
      assert s == first + [SEP] + rest;
      SplitFirst(first, rest);
    }
  }

  lemma {:induction false} SplitsAfterFirst(s: string)
    ensures s == Split(s)[0] || LongerId(s, Split(s)[0])
  {
    if s != [] && s[0] != SEP {
      SplitsAfterFirst(s[1..]);
      var first, rest := Split(s)[0], Split(s[1..])[0];
      assert first == [s[0]] + rest;
      if LongerId(s[1..], rest) {
        assert s[..|first| + 1] == [s[0]] + s[1..][..|rest| + 1];
      } else {
        assert s == [s[0]] + s[1..];
      }
    }
  }

  lemma SplitName(n: Name)
    requires !n.Lt?
    ensures |Split(Printed(n))| > 1 && Split(Printed(n))[0] == Kind(n)
    ensures Split(Printed(n))[1] == Split(n.thread)[0]
  {
    PrintedParts(n);
    var kind := Kind(n);
    assert Clean(kind);
    SplitClean(kind);
    SplitConcat(kind, n.thread);
    SplitConcat(TwoPartKey(kind, n.thread), n.ns);
    if n.Wr? {
      SplitConcat(TwoPartKey(TwoPartKey("wr", n.thread), n.ns), n.id);
    }
  }

  lemma PrintedStarts(n: Name, rest: string)
    requires !n.Lt? && Text.StartsWith(n.thread + [SEP], rest)
    ensures Text.StartsWith(Printed(n), Kind(n) + [SEP] + rest)
  {
    PrintedParts(n);
    var front := Kind(n) + [SEP] + (n.thread + [SEP]);
    assert front == TwoPartKey(Kind(n), n.thread) + [SEP];
    assert Printed(n)[..|front|] == front;
    assert front[..3 + |rest|] == Kind(n) + [SEP] + rest;
    assert Printed(n)[..3 + |rest|] == front[..3 + |rest|];
  }

  lemma PickedOnlyOfTheThread(n: Name, kind: string, thread: string)
    requires kind in {"ck", "wr", "bl"} && Picked(Printed(n), kind, thread)
    ensures !n.Lt? && Kind(n) == kind && Clean(thread) && (n.thread == thread || LongerId(n.thread, thread))
  {
    var name, prefix := Printed(n), kind + [SEP] + thread + [SEP];
    KindIsPrinted(n);
    PrintedParts(n);
    assert name[..2] == name[..|prefix|][..2] == kind;
    SplitName(n);
    PartsAreClean(name);
    assert thread in Split(name);
    FirstPart(n.thread, thread);
  }

  lemma OfTheThreadIsPicked(n: Name, thread: string)
    requires !n.Lt? && Clean(thread) && (n.thread == thread || LongerId(n.thread, thread))
    ensures Picked(Printed(n), Kind(n), thread)
  {
    SplitName(n);
    FirstPart(n.thread, thread);
    if LongerId(n.thread, thread) {
      assert (n.thread + [SEP])[..|thread| + 1] == n.thread[..|thread| + 1];
    }
    PrintedStarts(n, thread + [SEP]);
    assert Kind(n) + [SEP] + (thread + [SEP]) == Kind(n) + [SEP] + thread + [SEP];
  }

  /** Which names are picked for a thread: those of its kind whose thread it is, or whose
      thread's id begins with it and the separator; and for a thread with the separator in
      its id, none. */
  lemma PickedIff(n: Name, kind: string, thread: string)
    requires kind in {"ck", "wr", "bl"}
    ensures Picked(Printed(n), kind, thread)
       <==> !n.Lt? && Kind(n) == kind && Clean(thread) && (n.thread == thread || LongerId(n.thread, thread))
  {
    if Picked(Printed(n), kind, thread) {
      PickedOnlyOfTheThread(n, kind, thread);
    }
    if !n.Lt? && Kind(n) == kind && Clean(thread) && (n.thread == thread || LongerId(n.thread, thread)) {
      OfTheThreadIsPicked(n, thread);
    }
  }

  /** So the picking is right about a name of its kind exactly when a thread's own id is free
      of the separator and no other thread's begins with it and the separator. */
  lemma PickedIsOfTheThreadIff(n: Name, kind: string, thread: string)
    requires kind in {"ck", "wr", "bl"} && !n.Lt? && Kind(n) == kind
    ensures (Picked(Printed(n), kind, thread) <==> n.thread == thread)
       <==> if n.thread == thread then Clean(thread) else !(Clean(thread) && LongerId(n.thread, thread))
  {
    PickedIff(n, kind, thread);
  }

  /** `delete_thread("a")` and `copy_thread("a", …)` take the rows of thread `a SEP b` too. */
  lemma OtherThreadIsPicked()
    ensures Picked(Printed(Ck("a" + [SEP] + "b", "")), "ck", "a")
  {
    var n := Ck("a" + [SEP] + "b", "");
    assert n.thread[..2] == "a" + [SEP];
    PickedIff(n, "ck", "a");
  }

  /** And for a thread with the separator in its id they find nothing, and say nothing. */
  lemma NothingIsPicked(n: Name, kind: string, thread: string)
    requires kind in {"ck", "wr", "bl"} && !Clean(thread)
    ensures !Picked(Printed(n), kind, thread)
  {
    PickedIff(n, kind, thread);
  }

  lemma PointerSeparators(owner: string, ns: string, i: nat)
    requires Clean(ns) && |owner| < i < |TwoPartKey(owner, ns)|
    ensures TwoPartKey(owner, ns)[i] != SEP
  {
    assert TwoPartKey(owner, ns)[i] == ns[i - |owner| - 1];
  }

  lemma PointerOwner(owner: string, ns: string, thread: string)
    requires Clean(ns) && Text.StartsWith(TwoPartKey(owner, ns), thread + [SEP])
    ensures owner == thread || LongerId(owner, thread)
  {
    var key, prefix := TwoPartKey(owner, ns), thread + [SEP];
    forall i: nat | |owner| < i < |key| ensures key[i] != SEP {
      PointerSeparators(owner, ns, i);
    }
    assert key[|thread|] == prefix[|thread|] == SEP;
    assert key[..|owner|] == owner && key[..|thread|] == prefix[..|thread|] == thread;
    if |thread| < |owner| {
      assert owner[..|prefix|] == key[..|prefix|];
    }
  }

  /** The pointers `delete_thread` picks, by the prefix alone: its own, and those of the same
      longer ids. */
  lemma PickedPointersIff(owner: string, ns: string, thread: string)
    requires Clean(ns)
    ensures Text.StartsWith(TwoPartKey(owner, ns), thread + [SEP]) <==> owner == thread || LongerId(owner, thread)
  {
    var key, prefix := TwoPartKey(owner, ns), thread + [SEP];
    if Text.StartsWith(key, prefix) {
      PointerOwner(owner, ns, thread);
    }
    if LongerId(owner, thread) {
      assert key[..|prefix|] == owner[..|prefix|];
    }
    if owner == thread {
      assert key[..|prefix|] == prefix;
    }
  }
}
