/** The condition language of handoff edges: values, expressions and evaluation. */
module Condition {
  import opened Wrappers
  import Text

  /** A finite float, infinity or NaN; comparing them is left to a parameter. */
  datatype Float = Float(bits: nat)

  /** `rmpv::Value`, as far as a routing state can hold it. */
  datatype Value =
    | Nil
    | Boolean(b: bool)
    | Integer(i: int)
    | F64(f: Float)
    | Str(s: string)
    | Binary(bytes: seq<nat>)
    | Array(items: seq<Value>)
    | Map(pairs: seq<(Value, Value)>)

  type Path = seq<string>

  datatype CmpOp = Eq | Ne | Lt | Le | Gt | Ge | In | NotIn

  datatype Expr =
    | EStr(s: string)
    | EInt(n: int)
    | EFloat(f: Float)
    | EBool(b: bool)
    | ENull
    | EList(items: seq<Expr>)
    | EVar(path: Path)
    | ENot(e: Expr)
    | EAnd(terms: seq<Expr>)
    | EOr(terms: seq<Expr>)
    | ECmp(op: CmpOp, left: Expr, right: Expr)

  /** The arithmetic of floats: an integer as a float, whether one is zero, and how two
      compare. Routing on a partial state does not depend on it. */
  datatype Semantics = Semantics(
    double: int -> Float,
    zero: Float -> bool,
    same: (Float, Float) -> bool,
    less: (Float, Float) -> bool,
    atMost: (Float, Float) -> bool)

  // ---------------------------------------------------------------- evaluation

  /** `as_f64`. */
  function AsDouble(sem: Semantics, v: Value): Option<Float> {
    match v
    case Integer(i) => Some(sem.double(i))
    case F64(f) => Some(f)
    case _ => None
  }

  /** `truthy`. */
  function Truthy(sem: Semantics, v: Value): bool {
    match v
    case Nil => false
    case Boolean(b) => b
    case Integer(_) => !sem.zero(AsDouble(sem, v).value)
    case F64(_) => !sem.zero(AsDouble(sem, v).value)
    case Str(s) => s != []
    case Binary(b) => b != []
    case Array(a) => a != []
    case Map(m) => m != []
  }

  /** The equality of `rmpv::Value`: an integer never equals a float here, and floats inside
      compare as floats. */
  function SameValue(sem: Semantics, a: Value, b: Value): bool
    decreases a
  {
    match a
    case F64(f) => b.F64? && sem.same(f, b.f)
    case Array(items) =>
      b.Array? && |items| == |b.items| && forall i :: 0 <= i < |items| ==> SameValue(sem, items[i], b.items[i])
    case Map(pairs) =>
      b.Map? && |pairs| == |b.pairs| &&
      forall i :: 0 <= i < |pairs| ==>
        SameValue(sem, pairs[i].0, b.pairs[i].0) && SameValue(sem, pairs[i].1, b.pairs[i].1)
    case _ => a == b
  }

  /** `values_equal`. */
  function ValuesEqual(sem: Semantics, a: Value, b: Value): bool {
    var x, y := AsDouble(sem, a), AsDouble(sem, b);
    if x.Some? && y.Some? then sem.same(x.value, y.value) else SameValue(sem, a, b)
  }

  /** `ordering_true`. Strings compare by code points. */
  function OrderingTrue(sem: Semantics, op: CmpOp, a: Value, b: Value): bool {
    var x, y := AsDouble(sem, a), AsDouble(sem, b);
    if x.Some? && y.Some? then
      match op
      case Lt => sem.less(x.value, y.value)
      case Le => sem.atMost(x.value, y.value)
      case Gt => sem.less(y.value, x.value)
      case Ge => sem.atMost(y.value, x.value)
      case _ => false
    else if a.Str? && b.Str? then
      match op
      case Lt => Text.Less(a.s, b.s)
      case Le => Text.AtMost(a.s, b.s)
      case Gt => Text.Less(b.s, a.s)
      case Ge => Text.AtMost(b.s, a.s)
      case _ => false
    else false
  }

  /** `str::contains`. */
  predicate Contains(hay: string, needle: string) {
    Text.StartsWith(hay, needle) || (hay != [] && Contains(hay[1..], needle))
  }

  /** `is_member`. */
  function IsMember(sem: Semantics, a: Value, b: Value): bool {
    match b
    case Array(items) => exists i :: 0 <= i < |items| && ValuesEqual(sem, items[i], a)
    case Str(hay) => a.Str? && Contains(hay, a.s)
    case Map(pairs) => exists i :: 0 <= i < |pairs| && ValuesEqual(sem, pairs[i].0, a)
    case _ => false
  }

  function Compare(sem: Semantics, op: CmpOp, a: Value, b: Value): bool {
    match op
    case Eq => ValuesEqual(sem, a, b)
    case Ne => !ValuesEqual(sem, a, b)
    case In => IsMember(sem, a, b)
    case NotIn => !IsMember(sem, a, b)
    case _ => OrderingTrue(sem, op, a, b)
  }

  /** The first entry whose key is the string `key`. */
  function Find(pairs: seq<(Value, Value)>, key: string): Option<Value> {
    if pairs == [] then None
    else if pairs[0].0 == Str(key) then Some(pairs[0].1)
    else Find(pairs[1..], key)
  }

  /** `lookup`. */
  function Lookup(state: Value, path: Path): Option<Value>
    decreases |path|
  {
    if path == [] then Some(state)
    else match state
      case Map(pairs) =>
        (match Find(pairs, path[0])
         case None => None
         case Some(inner) => Lookup(inner, path[1..]))
      case _ => None
  }

  /** The loop of `lookup`, one segment after the other. */
  method LookupLoop(state: Value, path: Path) returns (r: Option<Value>)
    ensures r == Lookup(state, path)
  {
    var cur := state;
    for i := 0 to |path|
      invariant Lookup(state, path) == Lookup(cur, path[i..])
    {
      if !cur.Map? { return None; }
      var found := Find(cur.pairs, path[i]);
      if found.None? { return None; }
      assert path[i..][1..] == path[i + 1..];
      cur := found.value;
    }
    return Some(cur);
  }

  /** `eval`. `and` and `or` stop at the first term that decides them. */
  function Eval(sem: Semantics, e: Expr, state: Value): Value
    decreases e, 1
  {
    match e
    case EStr(s) => Str(s)
    case EInt(n) => Integer(n)
    case EFloat(f) => F64(f)
    case EBool(b) => Boolean(b)
    case ENull => Nil
    case EList(items) => Array(EvalAll(sem, items, state))
    case EVar(path) => (match Lookup(state, path) case None => Nil case Some(v) => v)
    case ENot(inner) => Boolean(!Truthy(sem, Eval(sem, inner, state)))
    case EAnd(terms) => Boolean(AllTrue(sem, terms, state))
    case EOr(terms) => Boolean(AnyTrue(sem, terms, state))
    case ECmp(op, left, right) => Boolean(Compare(sem, op, Eval(sem, left, state), Eval(sem, right, state)))
  }

  function EvalAll(sem: Semantics, items: seq<Expr>, state: Value): seq<Value>
    decreases items, 0
  {
    if items == [] then [] else [Eval(sem, items[0], state)] + EvalAll(sem, items[1..], state)
  }

  function AllTrue(sem: Semantics, terms: seq<Expr>, state: Value): bool
    decreases terms, 0
  {
    terms == [] || (Truthy(sem, Eval(sem, terms[0], state)) && AllTrue(sem, terms[1..], state))
  }

  function AnyTrue(sem: Semantics, terms: seq<Expr>, state: Value): bool
    decreases terms, 0
  {
    terms != [] && (Truthy(sem, Eval(sem, terms[0], state)) || AnyTrue(sem, terms[1..], state))
  }

  /** `eval_truthy`. */
  function Holds(sem: Semantics, e: Expr, state: Value): bool {
    Truthy(sem, Eval(sem, e, state))
  }

  // --------------------------------------------------------------- paths it reads

  /** The state paths `e` reads. */
  function PathsOf(e: Expr): set<Path> {
    match e
    case EVar(path) => {path}
    case ENot(inner) => PathsOf(inner)
    case EAnd(terms) => set x, p | x in terms && p in PathsOf(x) :: p
    case EOr(terms) => set x, p | x in terms && p in PathsOf(x) :: p
    case EList(terms) => set x, p | x in terms && p in PathsOf(x) :: p
    case ECmp(_, left, right) => PathsOf(left) + PathsOf(right)
    case _ => {}
  }

  predicate NoDuplicates(paths: seq<Path>) {
    forall i, j :: 0 <= i < j < |paths| ==> paths[i] != paths[j]
  }

  /** `collect_paths`: append the paths of `e` that are not listed yet. */
  method CollectPaths(e: Expr, out: seq<Path>) returns (r: seq<Path>)
    requires NoDuplicates(out)
    ensures NoDuplicates(r) && out <= r
    ensures forall p :: p in r <==> p in out || p in PathsOf(e)
    decreases e, 1
  {
    match e
    case EVar(path) =>
      r := if path in out then out else out + [path];
    case ENot(inner) =>
      r := CollectPaths(inner, out);
    case EAnd(terms) =>
      r := CollectFromAll(terms, out);
    case EOr(terms) =>
      r := CollectFromAll(terms, out);
    case EList(terms) =>
      r := CollectFromAll(terms, out);
    case ECmp(_, left, right) =>
      r := CollectPaths(left, out);
      r := CollectPaths(right, r);
    case _ =>
      r := out;
  }

  method CollectFromAll(terms: seq<Expr>, out: seq<Path>) returns (r: seq<Path>)
    requires NoDuplicates(out)
    ensures NoDuplicates(r) && out <= r
    ensures forall p :: p in r <==> p in out || exists x :: x in terms && p in PathsOf(x)
    decreases terms, 0
  {
    r := out;
    for i := 0 to |terms|
      invariant NoDuplicates(r) && out <= r
      invariant forall p :: p in r <==> p in out || exists j :: 0 <= j < i && p in PathsOf(terms[j])
    {
      assert terms[i] in terms;
      r := CollectPaths(terms[i], r);
    }
  }

  // -------------------------------------------------- evaluation reads only those

  ghost predicate Agree(paths: set<Path>, a: Value, b: Value) {
    forall p :: p in paths ==> Lookup(a, p) == Lookup(b, p)
  }

  /** Two states that agree on the paths of an expression give it the same value. */
  lemma {:induction false} EvalReadsOnlyItsPaths(sem: Semantics, e: Expr, a: Value, b: Value)
    requires Agree(PathsOf(e), a, b)
    ensures Eval(sem, e, a) == Eval(sem, e, b)
    decreases e, 1
  {
    match e
    case EList(items) => TermsOf(e, items, a, b); TermsReadOnlyTheirPaths(sem, items, a, b);
    case ENot(inner) => EvalReadsOnlyItsPaths(sem, inner, a, b);
    case EAnd(terms) => TermsOf(e, terms, a, b); TermsReadOnlyTheirPaths(sem, terms, a, b);
    case EOr(terms) => TermsOf(e, terms, a, b); TermsReadOnlyTheirPaths(sem, terms, a, b);
    case ECmp(_, left, right) =>
      SidesOf(left, right, a, b);
      EvalReadsOnlyItsPaths(sem, left, a, b);
      EvalReadsOnlyItsPaths(sem, right, a, b);
    case _ =>
  }

  ghost predicate AllAgree(terms: seq<Expr>, a: Value, b: Value) {
    forall x :: x in terms ==> Agree(PathsOf(x), a, b)
  }

  lemma TermsOf(e: Expr, terms: seq<Expr>, a: Value, b: Value)
    requires e == EList(terms) || e == EAnd(terms) || e == EOr(terms)
    requires Agree(PathsOf(e), a, b)
    ensures AllAgree(terms, a, b)
  {
    forall x, p | x in terms && p in PathsOf(x) ensures Lookup(a, p) == Lookup(b, p) {
      assert p in PathsOf(e);
    }
  }

  lemma SidesOf(left: Expr, right: Expr, a: Value, b: Value)
    requires Agree(PathsOf(left) + PathsOf(right), a, b)
    ensures Agree(PathsOf(left), a, b) && Agree(PathsOf(right), a, b)
  {
  }

  lemma {:induction false} TermsReadOnlyTheirPaths(sem: Semantics, terms: seq<Expr>, a: Value, b: Value)
    requires AllAgree(terms, a, b)
    ensures EvalAll(sem, terms, a) == EvalAll(sem, terms, b)
    ensures AllTrue(sem, terms, a) == AllTrue(sem, terms, b)
    ensures AnyTrue(sem, terms, a) == AnyTrue(sem, terms, b)
    decreases terms, 0
  {
    if terms != [] {
      assert terms[0] in terms;
      EvalReadsOnlyItsPaths(sem, terms[0], a, b);
      TermsReadOnlyTheirPaths(sem, terms[1..], a, b);
    }
  }

  /** `and` and `or` mean what they say, whatever is skipped. */
  lemma {:induction false} TermsMean(sem: Semantics, terms: seq<Expr>, state: Value)
    ensures AllTrue(sem, terms, state) <==> forall x :: x in terms ==> Holds(sem, x, state)
    ensures AnyTrue(sem, terms, state) <==> exists x :: x in terms && Holds(sem, x, state)
    decreases |terms|
  {
    if terms != [] {
      var first, rest := terms[0], terms[1..];
      TermsMean(sem, rest, state);
      assert forall x :: x in terms <==> x == first || x in rest;
      assert AllTrue(sem, terms, state) == (Holds(sem, first, state) && AllTrue(sem, rest, state));
      assert AnyTrue(sem, terms, state) == (Holds(sem, first, state) || AnyTrue(sem, rest, state));
    }
  }
}
