/** When a condition holds, form by form, and of a parsed condition, by how it was
    written. */
module ConditionMeaning {
  import opened Wrappers
  import opened Condition
  import opened ConditionGrammar
  import Text

  // ------------------------------------------------------------------- references

  /** The first entry under the key holds `v`. */
  ghost predicate FirstUnder(pairs: seq<(Value, Value)>, key: string, v: Value) {
    exists i :: 0 <= i < |pairs| && pairs[i] == (Str(key), v) && forall j :: 0 <= j < i ==> pairs[j].0 != Str(key)
  }

  /** Following the path, segment by segment through maps, leads to `v`. */
  ghost predicate Leads(state: Value, path: Path, v: Value) {
    exists steps :: Steps(state, path, steps) && steps[|path|] == v
  }

  ghost predicate Steps(state: Value, path: Path, steps: seq<Value>) {
    && |steps| == |path| + 1 && steps[0] == state
    && forall i :: 0 <= i < |path| ==> steps[i].Map? && FirstUnder(steps[i].pairs, path[i], steps[i + 1])
  }

  lemma {:induction false} FindIff(pairs: seq<(Value, Value)>, key: string, v: Value)
    ensures Find(pairs, key) == Some(v) <==> FirstUnder(pairs, key, v)
  {
    if pairs != [] {
      FindIff(pairs[1..], key, v);
      if pairs[0].0 == Str(key) {
        if FirstUnder(pairs, key, v) {
          var i :| 0 <= i < |pairs| && pairs[i] == (Str(key), v) && forall j :: 0 <= j < i ==> pairs[j].0 != Str(key);
          assert i == 0;
        }
        if pairs[0].1 == v { assert pairs[0] == (Str(key), v); }
      } else {
        if FirstUnder(pairs[1..], key, v) {
          var i :| 0 <= i < |pairs| - 1 && pairs[1..][i] == (Str(key), v)
            && forall j :: 0 <= j < i ==> pairs[1..][j].0 != Str(key);
          forall j | 0 <= j < i + 1 ensures pairs[j].0 != Str(key) {
            if j > 0 { assert pairs[1..][j - 1] == pairs[j]; }
          }
          assert pairs[i + 1] == (Str(key), v);
        }
        if FirstUnder(pairs, key, v) {
          var i :| 0 <= i < |pairs| && pairs[i] == (Str(key), v) && forall j :: 0 <= j < i ==> pairs[j].0 != Str(key);
          assert pairs[1..][i - 1] == pairs[i];
          forall j | 0 <= j < i - 1 ensures pairs[1..][j].0 != Str(key) {
            assert pairs[1..][j] == pairs[j + 1];
          }
        }
      }
    }
  }

  /** A reference finds a value exactly if its path leads to it. */
  lemma {:induction false} LookupIff(state: Value, path: Path, v: Value)
    ensures Lookup(state, path) == Some(v) <==> Leads(state, path, v)
    decreases |path|
  {
    if path == [] {
      if state == v { assert Steps(state, path, [v]); }
    } else {
      if Lookup(state, path) == Some(v) {
        var inner := Find(state.pairs, path[0]).value;
        FindIff(state.pairs, path[0], inner);
        LookupIff(inner, path[1..], v);
        var steps :| Steps(inner, path[1..], steps) && steps[|path| - 1] == v;
        OneStepMore(state, path, inner, steps);
      }
      if Leads(state, path, v) {
        var steps :| Steps(state, path, steps) && steps[|path|] == v;
        FindIff(state.pairs, path[0], steps[1]);
        OneStepLess(state, path, steps);
        LookupIff(steps[1], path[1..], v);
      }
    }
  }

  lemma OneStepMore(state: Value, path: Path, inner: Value, steps: seq<Value>)
    requires path != [] && state.Map? && FirstUnder(state.pairs, path[0], inner) && Steps(inner, path[1..], steps)
    ensures Steps(state, path, [state] + steps) && ([state] + steps)[|path|] == steps[|path| - 1]
  {
    var longer := [state] + steps;
    forall i | 0 <= i < |path| ensures longer[i].Map? && FirstUnder(longer[i].pairs, path[i], longer[i + 1]) {
      if i > 0 { assert longer[i] == steps[i - 1] && path[i] == path[1..][i - 1]; }
    }
  }

  lemma OneStepLess(state: Value, path: Path, steps: seq<Value>)
    requires path != [] && Steps(state, path, steps)
    ensures Steps(steps[1], path[1..], steps[1..])
  {
    forall i | 0 <= i < |path| - 1 ensures steps[1..][i].Map? && FirstUnder(steps[1..][i].pairs, path[1..][i], steps[1..][i + 1]) {
      assert steps[1..][i] == steps[i + 1] && path[1..][i] == path[i + 1];
    }
  }

  /** What a reference means: the value its path leads to, null if it leads to none. */
  lemma ReferenceMeans(sem: Semantics, path: Path, state: Value)
    ensures var r := Eval(sem, EVar(path), state);
            Leads(state, path, r) || (r == Nil && forall v :: !Leads(state, path, v))
  {
    if Lookup(state, path).Some? {
      LookupIff(state, path, Lookup(state, path).value);
    } else {
      forall v ensures !Leads(state, path, v) {
        LookupIff(state, path, v);
      }
    }
  }

  // --------------------------------------------------------------------- the forms

  /** What a literal stands for. */
  function LiteralValue(e: Expr): Option<Value> {
    match e
    case EStr(s) => Some(Str(s))
    case EInt(n) => Some(Integer(n))
    case EFloat(f) => Some(F64(f))
    case EBool(b) => Some(Boolean(b))
    case ENull => Some(Nil)
    case _ => None
  }

  lemma LiteralsMean(sem: Semantics, e: Expr, state: Value)
    requires LiteralValue(e).Some?
    ensures Eval(sem, e, state) == LiteralValue(e).value
  {
  }

  /** Null, false, zero and what is empty do not hold; anything else does. */
  predicate MeansTrue(sem: Semantics, v: Value) {
    && v != Nil && v != Boolean(false)
    && (IsNumber(v) ==> !sem.zero(NumberOf(sem, v)))
    && v != Str("") && v != Binary([]) && v != Array([]) && v != Map([])
  }

  lemma TruthMeans(sem: Semantics, e: Expr, state: Value)
    ensures Holds(sem, e, state) <==> MeansTrue(sem, Eval(sem, e, state))
  {
  }

  /** A list is the list of its items' values. */
  lemma ListsMean(sem: Semantics, items: seq<Expr>, state: Value)
    ensures var list := Eval(sem, EList(items), state);
            && list.Array? && |list.items| == |items|
            && forall i :: 0 <= i < |items| ==> list.items[i] == Eval(sem, items[i], state)
  {
    ItemsMean(sem, items, state);
  }

  lemma {:induction false} ItemsMean(sem: Semantics, items: seq<Expr>, state: Value)
    ensures |EvalAll(sem, items, state)| == |items|
    ensures forall i :: 0 <= i < |items| ==> EvalAll(sem, items, state)[i] == Eval(sem, items[i], state)
  {
    if items != [] {
      ItemsMean(sem, items[1..], state);
      forall i | 0 <= i < |items| ensures EvalAll(sem, items, state)[i] == Eval(sem, items[i], state) {
        if i > 0 { assert items[i] == items[1..][i - 1]; }
      }
    }
  }

  /** `not`, `and` and `or` mean what they say. */
  lemma ConnectivesMean(sem: Semantics, e: Expr, terms: seq<Expr>, state: Value)
    ensures Holds(sem, ENot(e), state) <==> !Holds(sem, e, state)
    ensures Holds(sem, EAnd(terms), state) <==> forall x :: x in terms ==> Holds(sem, x, state)
    ensures Holds(sem, EOr(terms), state) <==> exists x :: x in terms && Holds(sem, x, state)
  {
    TermsMean(sem, terms, state);
  }

  predicate IsNumber(v: Value) {
    v.Integer? || v.F64?
  }

  /** A number as the float it is compared as. */
  function NumberOf(sem: Semantics, v: Value): Float
    requires IsNumber(v)
  {
    if v.Integer? then sem.double(v.i) else v.f
  }

  /** Two numbers are equal if they are as floats; anything else if it is the same all
      through, so a number equals no string, list or null. */
  predicate MeansEqual(sem: Semantics, a: Value, b: Value) {
    if IsNumber(a) && IsNumber(b) then sem.same(NumberOf(sem, a), NumberOf(sem, b))
    else if IsNumber(a) || IsNumber(b) then false
    else SameValue(sem, a, b)
  }

  predicate MeansLess(sem: Semantics, a: Value, b: Value) {
    || (IsNumber(a) && IsNumber(b) && sem.less(NumberOf(sem, a), NumberOf(sem, b)))
    || (a.Str? && b.Str? && Text.Less(a.s, b.s))
  }

  predicate MeansAtMost(sem: Semantics, a: Value, b: Value) {
    || (IsNumber(a) && IsNumber(b) && sem.atMost(NumberOf(sem, a), NumberOf(sem, b)))
    || (a.Str? && b.Str? && (a.s == b.s || Text.Less(a.s, b.s)))
  }

  predicate SplitsInto(hay: string, before: string, needle: string, after: string) {
    hay == before + needle + after
  }

  lemma NotAtTheStart(hay: string, needle: string)
    requires !Text.StartsWith(hay, needle)
    ensures forall after :: !SplitsInto(hay, [], needle, after)
  {
    forall after ensures !SplitsInto(hay, [], needle, after) {
      assert ([] + needle + after)[..|needle|] == needle;
    }
  }

  lemma {:induction false} ContainsMeans(hay: string, needle: string)
    ensures Contains(hay, needle) <==> exists before, after :: SplitsInto(hay, before, needle, after)
  {
    if Text.StartsWith(hay, needle) {
      assert SplitsInto(hay, [], needle, hay[|needle|..]);
    } else {
      NotAtTheStart(hay, needle);
    }
    if !Text.StartsWith(hay, needle) && hay != [] {
      ContainsMeans(hay[1..], needle);
      if before, after :| SplitsInto(hay[1..], before, needle, after) {
        assert SplitsInto(hay, [hay[0]] + before, needle, after);
      }
      if before, after :| SplitsInto(hay, before, needle, after) {
        assert before != [];
        assert SplitsInto(hay[1..], before[1..], needle, after);
      }
    }
  }

  ghost predicate MeansIn(sem: Semantics, a: Value, b: Value) {
    || (b.Array? && exists i :: 0 <= i < |b.items| && MeansEqual(sem, b.items[i], a))
    || (b.Map? && exists i :: 0 <= i < |b.pairs| && MeansEqual(sem, b.pairs[i].0, a))
    || (b.Str? && a.Str? && exists before, after :: SplitsInto(b.s, before, a.s, after))
  }

  lemma EqualMeans(sem: Semantics, a: Value, b: Value)
    ensures ValuesEqual(sem, a, b) <==> MeansEqual(sem, a, b)
  {
  }

  lemma MemberMeans(sem: Semantics, a: Value, b: Value)
    ensures IsMember(sem, a, b) <==> MeansIn(sem, a, b)
  {
    forall x ensures ValuesEqual(sem, x, a) <==> MeansEqual(sem, x, a) {
      EqualMeans(sem, x, a);
    }
    if b.Str? && a.Str? { ContainsMeans(b.s, a.s); }
  }

  /** What a comparison of two values means. */
  ghost predicate MeansCompared(sem: Semantics, op: CmpOp, a: Value, b: Value) {
    match op
    case Eq => MeansEqual(sem, a, b)
    case Ne => !MeansEqual(sem, a, b)
    case Lt => MeansLess(sem, a, b)
    case Le => MeansAtMost(sem, a, b)
    case Gt => MeansLess(sem, b, a)
    case Ge => MeansAtMost(sem, b, a)
    case In => MeansIn(sem, a, b)
    case NotIn => !MeansIn(sem, a, b)
  }

  lemma CompareMeans(sem: Semantics, op: CmpOp, a: Value, b: Value)
    ensures Compare(sem, op, a, b) <==> MeansCompared(sem, op, a, b)
  {
    EqualMeans(sem, a, b);
    MemberMeans(sem, a, b);
  }

  lemma ComparisonsMean(sem: Semantics, op: CmpOp, left: Expr, right: Expr, state: Value)
    ensures Holds(sem, ECmp(op, left, right), state)
       <==> MeansCompared(sem, op, Eval(sem, left, state), Eval(sem, right, state))
  {
    CompareMeans(sem, op, Eval(sem, left, state), Eval(sem, right, state));
  }

  /** `!=` and `not in` are exactly the opposites of `==` and `in`. */
  lemma OppositesMean(sem: Semantics, left: Expr, right: Expr, state: Value)
    ensures Holds(sem, ECmp(Ne, left, right), state) <==> !Holds(sem, ECmp(Eq, left, right), state)
    ensures Holds(sem, ECmp(NotIn, left, right), state) <==> !Holds(sem, ECmp(In, left, right), state)
  {
  }

  /** In nothing, and in what is no container, there is nothing. */
  lemma NotInANonContainer(sem: Semantics, left: Expr, right: Expr, state: Value)
    requires var b := Eval(sem, right, state); b.Nil? || b.Boolean? || IsNumber(b) || b.Binary?
    ensures !Holds(sem, ECmp(In, left, right), state) && Holds(sem, ECmp(NotIn, left, right), state)
  {
    ComparisonsMean(sem, In, left, right, state);
    ComparisonsMean(sem, NotIn, left, right, state);
  }

  // ------------------------------------------------------------- as it was written

  /** An or-derivation holds if one of its parts does. */
  predicate OrHolds(sem: Semantics, t: OrT, state: Value) {
    AndHolds(sem, t.head, state) || exists i :: 0 <= i < |t.tail| && AndHolds(sem, t.tail[i], state)
  }

  /** An and-derivation holds if all of its parts do. */
  predicate AndHolds(sem: Semantics, t: AndT, state: Value) {
    NotHolds(sem, t.head, state) && forall i :: 0 <= i < |t.tail| ==> NotHolds(sem, t.tail[i], state)
  }

  predicate NotHolds(sem: Semantics, t: NotT, state: Value) {
    match t
    case Neg(inner) => !NotHolds(sem, inner, state)
    case Pos(Single(prim)) => Truthy(sem, PrimValue(sem, prim, state))
    case Pos(Comparison(op, left, right)) => Compare(sem, op, PrimValue(sem, left, state), PrimValue(sem, right, state))
  }

  /** Nothing but one operand. */
  predicate IsLone(t: OrT) {
    t.tail == [] && t.head.tail == [] && t.head.head.Pos? && t.head.head.cmp.Single?
  }

  /** Brackets around one operand keep its value; around more they make a truth of it. */
  function PrimValue(sem: Semantics, t: Prim, state: Value): Value {
    match t
    case Paren(inner) =>
      if IsLone(inner) then PrimValue(sem, inner.head.head.cmp.prim, state) else Boolean(OrHolds(sem, inner, state))
    case LStr(s) => Str(s)
    case LInt(n) => Integer(n)
    case LFloat(f) => F64(f)
    case LBool(b) => Boolean(b)
    case LNull => Nil
    case EmptyList => Array([])
    case ListOf(head, tail, _) =>
      Array([PrimValue(sem, head, state)] + seq(|tail|, i requires 0 <= i < |tail| => PrimValue(sem, tail[i], state)))
    case Ref(first, segments) => (match Lookup(state, [first] + segments) case None => Nil case Some(v) => v)
  }

  function OrValue(sem: Semantics, t: OrT, state: Value): Value {
    if IsLone(t) then PrimValue(sem, t.head.head.cmp.prim, state) else Boolean(OrHolds(sem, t, state))
  }

  function AndValue(sem: Semantics, t: AndT, state: Value): Value {
    if t.tail == [] then NotValue(sem, t.head, state) else Boolean(AndHolds(sem, t, state))
  }

  function NotValue(sem: Semantics, t: NotT, state: Value): Value {
    if t.Pos? && t.cmp.Single? then PrimValue(sem, t.cmp.prim, state) else Boolean(NotHolds(sem, t, state))
  }

  /** The expression of a derivation has the value of the derivation. */
  lemma {:induction false} OrMeans(sem: Semantics, t: OrT, state: Value)
    ensures Eval(sem, AstOr(t), state) == OrValue(sem, t, state)
    ensures Holds(sem, AstOr(t), state) <==> OrHolds(sem, t, state)
    decreases t, 1
  {
    AndMeans(sem, t.head, state);
    if t.tail != [] {
      AndsMean(sem, t.tail, state);
      OrTermsMean(sem, t, state);
    }
  }

  lemma OrTermsMean(sem: Semantics, t: OrT, state: Value)
    requires Holds(sem, AstAnd(t.head), state) <==> AndHolds(sem, t.head, state)
    requires forall i :: 0 <= i < |t.tail| ==> (Holds(sem, AstAnds(t.tail)[i], state) <==> AndHolds(sem, t.tail[i], state))
    ensures Holds(sem, EOr([AstAnd(t.head)] + AstAnds(t.tail)), state) <==> OrHolds(sem, t, state)
  {
    var terms := [AstAnd(t.head)] + AstAnds(t.tail);
    AnyHolds(sem, terms, state);
    if i :| 0 <= i < |terms| && Holds(sem, terms[i], state) {
      if i > 0 { assert AndHolds(sem, t.tail[i - 1], state); }
    }
    if AndHolds(sem, t.head, state) { assert Holds(sem, terms[0], state); }
    if i :| 0 <= i < |t.tail| && AndHolds(sem, t.tail[i], state) { assert Holds(sem, terms[i + 1], state); }
  }

  lemma AnyHolds(sem: Semantics, terms: seq<Expr>, state: Value)
    ensures Holds(sem, EOr(terms), state) <==> exists i :: 0 <= i < |terms| && Holds(sem, terms[i], state)
    ensures Holds(sem, EAnd(terms), state) <==> forall i :: 0 <= i < |terms| ==> Holds(sem, terms[i], state)
  {
    ConnectivesMean(sem, ENull, terms, state);
  }

  lemma {:induction false} AndsMean(sem: Semantics, ts: seq<AndT>, state: Value)
    ensures forall i :: 0 <= i < |ts| ==>
              AstAnds(ts)[i] == AstAnd(ts[i]) && (Holds(sem, AstAnds(ts)[i], state) <==> AndHolds(sem, ts[i], state))
    decreases ts, 0
  {
    if ts != [] {
      AndMeans(sem, ts[0], state);
      AndsMean(sem, ts[1..], state);
      forall i | 0 <= i < |ts|
        ensures AstAnds(ts)[i] == AstAnd(ts[i]) && (Holds(sem, AstAnds(ts)[i], state) <==> AndHolds(sem, ts[i], state))
      {
        if i > 0 { assert ts[i] == ts[1..][i - 1] && AstAnds(ts)[i] == AstAnds(ts[1..])[i - 1]; }
      }
    }
  }

  lemma {:induction false} AndMeans(sem: Semantics, t: AndT, state: Value)
    ensures Eval(sem, AstAnd(t), state) == AndValue(sem, t, state)
    ensures Holds(sem, AstAnd(t), state) <==> AndHolds(sem, t, state)
    decreases t, 1
  {
    NotMeans(sem, t.head, state);
    if t.tail != [] {
      NotsMean(sem, t.tail, state);
      AndTermsMean(sem, t, state);
    }
  }

  lemma AndTermsMean(sem: Semantics, t: AndT, state: Value)
    requires Holds(sem, AstNot(t.head), state) <==> NotHolds(sem, t.head, state)
    requires forall i :: 0 <= i < |t.tail| ==> (Holds(sem, AstNots(t.tail)[i], state) <==> NotHolds(sem, t.tail[i], state))
    ensures Holds(sem, EAnd([AstNot(t.head)] + AstNots(t.tail)), state) <==> AndHolds(sem, t, state)
  {
    var terms := [AstNot(t.head)] + AstNots(t.tail);
    AnyHolds(sem, terms, state);
    if i :| 0 <= i < |terms| && !Holds(sem, terms[i], state) {
      if i > 0 { assert !NotHolds(sem, t.tail[i - 1], state); }
    }
    if !NotHolds(sem, t.head, state) { assert !Holds(sem, terms[0], state); }
    if i :| 0 <= i < |t.tail| && !NotHolds(sem, t.tail[i], state) { assert !Holds(sem, terms[i + 1], state); }
  }

  lemma {:induction false} NotsMean(sem: Semantics, ts: seq<NotT>, state: Value)
    ensures forall i :: 0 <= i < |ts| ==>
              AstNots(ts)[i] == AstNot(ts[i]) && (Holds(sem, AstNots(ts)[i], state) <==> NotHolds(sem, ts[i], state))
    decreases ts, 0
  {
    if ts != [] {
      NotMeans(sem, ts[0], state);
      NotsMean(sem, ts[1..], state);
      forall i | 0 <= i < |ts|
        ensures AstNots(ts)[i] == AstNot(ts[i]) && (Holds(sem, AstNots(ts)[i], state) <==> NotHolds(sem, ts[i], state))
      {
        if i > 0 { assert ts[i] == ts[1..][i - 1] && AstNots(ts)[i] == AstNots(ts[1..])[i - 1]; }
      }
    }
  }

  lemma {:induction false} NotMeans(sem: Semantics, t: NotT, state: Value)
    ensures Eval(sem, AstNot(t), state) == NotValue(sem, t, state)
    ensures Holds(sem, AstNot(t), state) <==> NotHolds(sem, t, state)
    decreases t, 1
  {
    match t
    case Neg(inner) => NotMeans(sem, inner, state);
    case Pos(Single(prim)) => PrimMeans(sem, prim, state);
    case Pos(Comparison(_, left, right)) =>
      PrimMeans(sem, left, state);
      PrimMeans(sem, right, state);
  }

  lemma {:induction false} PrimMeans(sem: Semantics, t: Prim, state: Value)
    ensures Eval(sem, AstPrim(t), state) == PrimValue(sem, t, state)
    decreases t, 1
  {
    match t
    case Paren(inner) => OrMeans(sem, inner, state);
    case ListOf(head, tail, _) =>
      PrimMeans(sem, head, state);
      PrimsMean(sem, tail, state);
      ListsMean(sem, [AstPrim(head)] + AstPrims(tail), state);
      assert Eval(sem, AstPrim(t), state).items == PrimValue(sem, t, state).items;
    case _ =>
  }

  lemma {:induction false} PrimsMean(sem: Semantics, ts: seq<Prim>, state: Value)
    ensures forall i :: 0 <= i < |ts| ==> Eval(sem, AstPrims(ts)[i], state) == PrimValue(sem, ts[i], state)
    decreases ts, 0
  {
    if ts != [] {
      PrimMeans(sem, ts[0], state);
      PrimsMean(sem, ts[1..], state);
      forall i | 0 <= i < |ts| ensures Eval(sem, AstPrims(ts)[i], state) == PrimValue(sem, ts[i], state) {
        if i > 0 { assert ts[i] == ts[1..][i - 1] && AstPrims(ts)[i] == AstPrims(ts[1..])[i - 1]; }
      }
    }
  }
}
