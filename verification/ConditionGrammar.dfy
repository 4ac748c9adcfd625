/** The grammar of conditions: its tokens, its derivations and what they stand for.

    A derivation is a concrete syntax tree. `Tokens...` spells one out, `Ast...` is the
    expression it stands for, and `Fits...` says that it stays within the depth budget
    when it is entered at a given depth. */
module ConditionGrammar {
  import opened Wrappers
  import opened Condition

  datatype Tok =
    | TIdent(name: string)
    | TStr(text: string)
    | TInt(n: int)
    | TFloat(f: Float)
    | TBool(b: bool)
    | TNull
    | TAnd | TOr | TNot | TIn
    | TEq | TNe | TLt | TLe | TGt | TGe
    | TLParen | TRParen | TLBracket | TRBracket
    | TComma | TDot

  /** `MAX_DEPTH` of the condition parser. */
  const MAX_DEPTH: nat := 64

  // -------------------------------------------------------------- derivations

  datatype OrT = OrT(head: AndT, tail: seq<AndT>)
  datatype AndT = AndT(head: NotT, tail: seq<NotT>)
  datatype NotT = Neg(inner: NotT) | Pos(cmp: CmpT)
  datatype CmpT = Single(prim: Prim) | Comparison(op: CmpOp, left: Prim, right: Prim)
  datatype Prim =
    | Paren(inner: OrT)
    | LStr(text: string)
    | LInt(n: int)
    | LFloat(f: Float)
    | LBool(b: bool)
    | LNull
    | EmptyList
    | ListOf(head: Prim, tail: seq<Prim>, comma: bool)
    | Ref(first: string, segments: seq<string>)

  // ------------------------------------------------------------------ spelling

  function TokensOr(t: OrT): seq<Tok>
    decreases t, 1
  {
    TokensAnd(t.head) + TokensOrMore(t.tail)
  }

  function TokensOrMore(ts: seq<AndT>): seq<Tok>
    decreases ts, 0
  {
    if ts == [] then [] else [TOr] + TokensAnd(ts[0]) + TokensOrMore(ts[1..])
  }

  function TokensAnd(t: AndT): seq<Tok>
    decreases t, 1
  {
    TokensNot(t.head) + TokensAndMore(t.tail)
  }

  function TokensAndMore(ts: seq<NotT>): seq<Tok>
    decreases ts, 0
  {
    if ts == [] then [] else [TAnd] + TokensNot(ts[0]) + TokensAndMore(ts[1..])
  }

  function TokensNot(t: NotT): seq<Tok>
    decreases t, 1
  {
    match t
    case Neg(inner) => [TNot] + TokensNot(inner)
    case Pos(cmp) => TokensCmp(cmp)
  }

  function TokensCmp(t: CmpT): seq<Tok>
    decreases t, 1
  {
    match t
    case Single(prim) => TokensPrim(prim)
    case Comparison(op, left, right) => TokensPrim(left) + TokensOp(op) + TokensPrim(right)
  }

  function TokensOp(op: CmpOp): seq<Tok> {
    match op
    case Eq => [TEq]
    case Ne => [TNe]
    case Lt => [TLt]
    case Le => [TLe]
    case Gt => [TGt]
    case Ge => [TGe]
    case In => [TIn]
    case NotIn => [TNot, TIn]
  }

  function TokensPrim(t: Prim): seq<Tok>
    decreases t, 1
  {
    match t
    case Paren(inner) => [TLParen] + TokensOr(inner) + [TRParen]
    case LStr(s) => [TStr(s)]
    case LInt(n) => [TInt(n)]
    case LFloat(f) => [TFloat(f)]
    case LBool(b) => [TBool(b)]
    case LNull => [TNull]
    case EmptyList => [TLBracket, TRBracket]
    case ListOf(head, tail, comma) => [TLBracket] + TokensPrim(head) + TokensItems(tail, comma)
    case Ref(first, segments) => [TIdent(first)] + TokensSegments(segments)
  }

  /** What follows an item of a list: more items, or the closing bracket, with or
      without a trailing comma before it. */
  function TokensItems(ts: seq<Prim>, comma: bool): seq<Tok>
    decreases ts, 0
  {
    if ts == [] then (if comma then [TComma, TRBracket] else [TRBracket])
    else [TComma] + TokensPrim(ts[0]) + TokensItems(ts[1..], comma)
  }

  function TokensSegments(segments: seq<string>): seq<Tok> {
    if segments == [] then [] else [TDot, TIdent(segments[0])] + TokensSegments(segments[1..])
  }

  // ------------------------------------------------------------------- meaning

  function AstOr(t: OrT): Expr
    decreases t, 1
  {
    if t.tail == [] then AstAnd(t.head) else EOr([AstAnd(t.head)] + AstAnds(t.tail))
  }

  function AstAnds(ts: seq<AndT>): (r: seq<Expr>)
    ensures |r| == |ts|
    decreases ts, 0
  {
    if ts == [] then [] else [AstAnd(ts[0])] + AstAnds(ts[1..])
  }

  function AstAnd(t: AndT): Expr
    decreases t, 1
  {
    if t.tail == [] then AstNot(t.head) else EAnd([AstNot(t.head)] + AstNots(t.tail))
  }

  function AstNots(ts: seq<NotT>): (r: seq<Expr>)
    ensures |r| == |ts|
    decreases ts, 0
  {
    if ts == [] then [] else [AstNot(ts[0])] + AstNots(ts[1..])
  }

  function AstNot(t: NotT): Expr
    decreases t, 1
  {
    match t
    case Neg(inner) => ENot(AstNot(inner))
    case Pos(cmp) => AstCmp(cmp)
  }

  function AstCmp(t: CmpT): Expr
    decreases t, 1
  {
    match t
    case Single(prim) => AstPrim(prim)
    case Comparison(op, left, right) => ECmp(op, AstPrim(left), AstPrim(right))
  }

  function AstPrim(t: Prim): Expr
    decreases t, 1
  {
    match t
    case Paren(inner) => AstOr(inner)
    case LStr(s) => EStr(s)
    case LInt(n) => EInt(n)
    case LFloat(f) => EFloat(f)
    case LBool(b) => EBool(b)
    case LNull => ENull
    case EmptyList => EList([])
    case ListOf(head, tail, _) => EList([AstPrim(head)] + AstPrims(tail))
    case Ref(first, segments) => EVar([first] + segments)
  }

  function AstPrims(ts: seq<Prim>): (r: seq<Expr>)
    ensures |r| == |ts|
    decreases ts, 0
  {
    if ts == [] then [] else [AstPrim(ts[0])] + AstPrims(ts[1..])
  }

  // --------------------------------------------------------------------- depth

  predicate FitsOr(t: OrT, d: nat)
    decreases t, 1
  {
    d <= MAX_DEPTH && FitsAnd(t.head, d + 1) && FitsAnds(t.tail, d + 1)
  }

  predicate FitsAnds(ts: seq<AndT>, d: nat)
    decreases ts, 0
  {
    ts != [] ==> FitsAnd(ts[0], d) && FitsAnds(ts[1..], d)
  }

  predicate FitsAnd(t: AndT, d: nat)
    decreases t, 1
  {
    FitsNot(t.head, d + 1) && FitsNots(t.tail, d + 1)
  }

  predicate FitsNots(ts: seq<NotT>, d: nat)
    decreases ts, 0
  {
    ts != [] ==> FitsNot(ts[0], d) && FitsNots(ts[1..], d)
  }

  predicate FitsNot(t: NotT, d: nat)
    decreases t, 1
  {
    d <= MAX_DEPTH &&
    match t
    case Neg(inner) => FitsNot(inner, d + 1)
    case Pos(cmp) => FitsCmp(cmp, d + 1)
  }

  predicate FitsCmp(t: CmpT, d: nat)
    decreases t, 1
  {
    match t
    case Single(prim) => FitsPrim(prim, d + 1)
    case Comparison(_, left, right) => FitsPrim(left, d + 1) && FitsPrim(right, d + 1)
  }

  predicate FitsPrim(t: Prim, d: nat)
    decreases t, 1
  {
    d <= MAX_DEPTH &&
    match t
    case Paren(inner) => FitsOr(inner, d + 1)
    case ListOf(head, tail, _) => FitsPrim(head, d + 1) && FitsPrims(tail, d + 1)
    case _ => true
  }

  predicate FitsPrims(ts: seq<Prim>, d: nat)
    decreases ts, 0
  {
    ts != [] ==> FitsPrim(ts[0], d) && FitsPrims(ts[1..], d)
  }

  // ---------------------------------------------------- height of what is parsed

  /** Height of an expression; a leaf has height 1. */
  function ExprHeight(e: Expr): nat
    decreases e, 1
  {
    match e
    case EList(items) => 1 + Tallest(items)
    case ENot(inner) => 1 + ExprHeight(inner)
    case EAnd(terms) => 1 + Tallest(terms)
    case EOr(terms) => 1 + Tallest(terms)
    case ECmp(_, left, right) => 1 + Max(ExprHeight(left), ExprHeight(right))
    case _ => 1
  }

  function Tallest(es: seq<Expr>): nat
    decreases es, 0
  {
    if es == [] then 0 else Max(ExprHeight(es[0]), Tallest(es[1..]))
  }

  lemma TallestCons(e: Expr, es: seq<Expr>)
    ensures Tallest([e] + es) == Max(ExprHeight(e), Tallest(es))
  {
    assert ([e] + es)[1..] == es;
  }

  lemma {:induction false} OrHeight(t: OrT, d: nat)
    requires FitsOr(t, d)
    ensures ExprHeight(AstOr(t)) <= 65 - d
    decreases t, 1
  {
    AndHeight(t.head, d + 1);
    if t.tail != [] {
      AndsHeight(t.tail, d + 1);
      TallestCons(AstAnd(t.head), AstAnds(t.tail));
    }
  }

  lemma {:induction false} AndsHeight(ts: seq<AndT>, d: nat)
    requires FitsAnds(ts, d)
    ensures ts != [] ==> Tallest(AstAnds(ts)) <= 65 - d
    decreases ts, 0
  {
    if ts != [] {
      AndHeight(ts[0], d);
      AndsHeight(ts[1..], d);
      TallestCons(AstAnd(ts[0]), AstAnds(ts[1..]));
    }
  }

  lemma {:induction false} AndHeight(t: AndT, d: nat)
    requires FitsAnd(t, d)
    ensures ExprHeight(AstAnd(t)) <= 65 - d
    decreases t, 1
  {
    NotHeight(t.head, d + 1);
    if t.tail != [] {
      NotsHeight(t.tail, d + 1);
      TallestCons(AstNot(t.head), AstNots(t.tail));
    }
  }

  lemma {:induction false} NotsHeight(ts: seq<NotT>, d: nat)
    requires FitsNots(ts, d)
    ensures ts != [] ==> Tallest(AstNots(ts)) <= 65 - d
    decreases ts, 0
  {
    if ts != [] {
      NotHeight(ts[0], d);
      NotsHeight(ts[1..], d);
      TallestCons(AstNot(ts[0]), AstNots(ts[1..]));
    }
  }

  lemma {:induction false} NotHeight(t: NotT, d: nat)
    requires FitsNot(t, d)
    ensures ExprHeight(AstNot(t)) <= 65 - d
    decreases t, 1
  {
    match t
    case Neg(inner) => NotHeight(inner, d + 1);
    case Pos(Single(prim)) => PrimHeight(prim, d + 2);
    case Pos(Comparison(_, left, right)) =>
      PrimHeight(left, d + 2);
      PrimHeight(right, d + 2);
  }

  lemma {:induction false} PrimHeight(t: Prim, d: nat)
    requires FitsPrim(t, d)
    ensures ExprHeight(AstPrim(t)) <= 65 - d
    decreases t, 1
  {
    match t
    case Paren(inner) => OrHeight(inner, d + 1);
    case ListOf(head, tail, _) =>
      PrimHeight(head, d + 1);
      PrimsHeight(tail, d + 1);
      TallestCons(AstPrim(head), AstPrims(tail));
    case _ =>
  }

  lemma {:induction false} PrimsHeight(ts: seq<Prim>, d: nat)
    requires FitsPrims(ts, d)
    ensures ts != [] ==> Tallest(AstPrims(ts)) <= 65 - d
    decreases ts, 0
  {
    if ts != [] {
      PrimHeight(ts[0], d);
      PrimsHeight(ts[1..], d);
      TallestCons(AstPrim(ts[0]), AstPrims(ts[1..]));
    }
  }

  // ------------------------------------------------------ paths are never empty

  lemma {:induction false} OrPaths(t: OrT)
    ensures [] !in PathsOf(AstOr(t))
    decreases t, 1
  {
    AndPaths(t.head);
    AndsPaths(t.tail);
  }

  lemma {:induction false} AndsPaths(ts: seq<AndT>)
    ensures forall x :: x in AstAnds(ts) ==> [] !in PathsOf(x)
    decreases ts, 0
  {
    if ts != [] { AndPaths(ts[0]); AndsPaths(ts[1..]); }
  }

  lemma {:induction false} AndPaths(t: AndT)
    ensures [] !in PathsOf(AstAnd(t))
    decreases t, 1
  {
    NotPaths(t.head);
    NotsPaths(t.tail);
  }

  lemma {:induction false} NotsPaths(ts: seq<NotT>)
    ensures forall x :: x in AstNots(ts) ==> [] !in PathsOf(x)
    decreases ts, 0
  {
    if ts != [] { NotPaths(ts[0]); NotsPaths(ts[1..]); }
  }

  lemma {:induction false} NotPaths(t: NotT)
    ensures [] !in PathsOf(AstNot(t))
    decreases t, 1
  {
    match t
    case Neg(inner) => NotPaths(inner);
    case Pos(Single(prim)) => PrimPaths(prim);
    case Pos(Comparison(_, left, right)) =>
      PrimPaths(left);
      PrimPaths(right);
  }

  lemma {:induction false} PrimPaths(t: Prim)
    ensures [] !in PathsOf(AstPrim(t))
    decreases t, 1
  {
    match t
    case Paren(inner) => OrPaths(inner);
    case ListOf(head, tail, _) =>
      PrimPaths(head);
      PrimsPaths(tail);
    case _ =>
  }

  lemma {:induction false} PrimsPaths(ts: seq<Prim>)
    ensures forall x :: x in AstPrims(ts) ==> [] !in PathsOf(x)
    decreases ts, 0
  {
    if ts != [] { PrimPaths(ts[0]); PrimsPaths(ts[1..]); }
  }
}
