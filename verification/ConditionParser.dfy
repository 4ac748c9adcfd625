/** The recursive-descent parser of conditions.

    `ReadOr` and its siblings parse to derivations and are shown to accept exactly the
    derivations within the depth budget; the class `Parser` builds expressions with a
    moving position, as the program's own parser does, and is shown to follow them. */
module ConditionParser {
  import opened Wrappers
  import opened Condition
  import opened ConditionGrammar

  datatype ParseError =
    | TooDeep
    | ExpectedParen
    | ExpectedCommaOrBracket
    | ExpectedIdentifier
    | Unexpected(tok: Option<Tok>)
    | EmptyCondition
    | Trailing(rest: Tok)

  /** What was read, and the tokens left. */
  type Read<T> = Result<(T, seq<Tok>), ParseError>

  predicate Next(ts: seq<Tok>, t: Tok) {
    ts != [] && ts[0] == t
  }

  // ---------------------------------------------------------- reading derivations

  function ReadOr(ts: seq<Tok>, d: nat): (r: Read<OrT>)
    ensures r.Ok? ==> |r.value.1| < |ts|
    decreases |ts|, 5
  {
    if d > MAX_DEPTH then Err(TooDeep)
    else match ReadAnd(ts, d + 1)
      case Err(e) => Err(e)
      case Ok((head, rest)) =>
        match ReadOrMore(rest, d + 1)
        case Err(e) => Err(e)
        case Ok((tail, rest')) => Ok((OrT(head, tail), rest'))
  }

  function ReadOrMore(ts: seq<Tok>, d: nat): (r: Read<seq<AndT>>)
    ensures r.Ok? ==> |r.value.1| <= |ts|
    decreases |ts|, 5
  {
    if !Next(ts, TOr) then Ok(([], ts))
    else match ReadAnd(ts[1..], d)
      case Err(e) => Err(e)
      case Ok((t, rest)) =>
        match ReadOrMore(rest, d)
        case Err(e) => Err(e)
        case Ok((more, rest')) => Ok(([t] + more, rest'))
  }

  function ReadAnd(ts: seq<Tok>, d: nat): (r: Read<AndT>)
    ensures r.Ok? ==> |r.value.1| < |ts|
    decreases |ts|, 4
  {
    match ReadNot(ts, d + 1)
    case Err(e) => Err(e)
    case Ok((head, rest)) =>
      match ReadAndMore(rest, d + 1)
      case Err(e) => Err(e)
      case Ok((tail, rest')) => Ok((AndT(head, tail), rest'))
  }

  function ReadAndMore(ts: seq<Tok>, d: nat): (r: Read<seq<NotT>>)
    ensures r.Ok? ==> |r.value.1| <= |ts|
    decreases |ts|, 4
  {
    if !Next(ts, TAnd) then Ok(([], ts))
    else match ReadNot(ts[1..], d)
      case Err(e) => Err(e)
      case Ok((t, rest)) =>
        match ReadAndMore(rest, d)
        case Err(e) => Err(e)
        case Ok((more, rest')) => Ok(([t] + more, rest'))
  }

  function ReadNot(ts: seq<Tok>, d: nat): (r: Read<NotT>)
    ensures r.Ok? ==> |r.value.1| < |ts|
    decreases |ts|, 3
  {
    if d > MAX_DEPTH then Err(TooDeep)
    else if Next(ts, TNot) then
      match ReadNot(ts[1..], d + 1)
      case Err(e) => Err(e)
      case Ok((inner, rest)) => Ok((Neg(inner), rest))
    else
      match ReadCmp(ts, d + 1)
      case Err(e) => Err(e)
      case Ok((cmp, rest)) => Ok((Pos(cmp), rest))
  }

  /** The comparison operator at the front; `not` counts only when `in` follows. */
  function OpAt(ts: seq<Tok>): Option<CmpOp> {
    if ts == [] then None
    else match ts[0]
      case TEq => Some(Eq)
      case TNe => Some(Ne)
      case TLt => Some(Lt)
      case TLe => Some(Le)
      case TGt => Some(Gt)
      case TGe => Some(Ge)
      case TIn => Some(In)
      case TNot => if Next(ts[1..], TIn) then Some(NotIn) else None
      case _ => None
  }

  function ReadCmp(ts: seq<Tok>, d: nat): (r: Read<CmpT>)
    ensures r.Ok? ==> |r.value.1| < |ts|
    decreases |ts|, 2
  {
    match ReadPrim(ts, d + 1)
    case Err(e) => Err(e)
    case Ok((left, rest)) =>
      match OpAt(rest)
      case None => Ok((Single(left), rest))
      case Some(op) =>
        match ReadPrim(rest[|TokensOp(op)|..], d + 1)
        case Err(e) => Err(e)
        case Ok((right, rest')) => Ok((Comparison(op, left, right), rest'))
  }

  function ReadPrim(ts: seq<Tok>, d: nat): (r: Read<Prim>)
    ensures r.Ok? ==> |r.value.1| < |ts|
    decreases |ts|, 1
  {
    if d > MAX_DEPTH then Err(TooDeep)
    else if ts == [] then Err(Unexpected(None))
    else match ts[0]
      case TLParen =>
        (match ReadOr(ts[1..], d + 1)
         case Err(e) => Err(e)
         case Ok((inner, rest)) => if Next(rest, TRParen) then Ok((Paren(inner), rest[1..])) else Err(ExpectedParen))
      case TStr(s) => Ok((LStr(s), ts[1..]))
      case TInt(n) => Ok((LInt(n), ts[1..]))
      case TFloat(f) => Ok((LFloat(f), ts[1..]))
      case TBool(b) => Ok((LBool(b), ts[1..]))
      case TNull => Ok((LNull, ts[1..]))
      case TLBracket => ReadList(ts[1..], d)
      case TIdent(first) =>
        (match ReadSegments(ts[1..])
         case Err(e) => Err(e)
         case Ok((segments, rest)) => Ok((Ref(first, segments), rest)))
      case _ => Err(Unexpected(Some(ts[0])))
  }

  /** A list, after its opening bracket. */
  function ReadList(ts: seq<Tok>, d: nat): (r: Read<Prim>)
    ensures r.Ok? ==> |r.value.1| < |ts|
    decreases |ts|, 2
  {
    if Next(ts, TRBracket) then Ok((EmptyList, ts[1..]))
    else match ReadPrim(ts, d + 1)
      case Err(e) => Err(e)
      case Ok((head, rest)) =>
        match ReadItems(rest, d + 1)
        case Err(e) => Err(e)
        case Ok(((tail, comma), rest')) => Ok((ListOf(head, tail, comma), rest'))
  }

  /** After an item: the end of the list, or a comma and then its end or another item. */
  function ReadItems(ts: seq<Tok>, d: nat): (r: Read<(seq<Prim>, bool)>)
    ensures r.Ok? ==> |r.value.1| < |ts|
    decreases |ts|, 0
  {
    if Next(ts, TRBracket) then Ok((([], false), ts[1..]))
    else if !Next(ts, TComma) then Err(ExpectedCommaOrBracket)
    else if Next(ts[1..], TRBracket) then Ok((([], true), ts[2..]))
    else match ReadPrim(ts[1..], d)
      case Err(e) => Err(e)
      case Ok((t, rest)) =>
        match ReadItems(rest, d)
        case Err(e) => Err(e)
        case Ok(((more, comma), rest')) => Ok((([t] + more, comma), rest'))
  }

  function ReadSegments(ts: seq<Tok>): (r: Read<seq<string>>)
    ensures r.Ok? ==> |r.value.1| <= |ts|
    decreases |ts|
  {
    if !Next(ts, TDot) then Ok(([], ts))
    else if |ts| == 1 || !ts[1].TIdent? then Err(ExpectedIdentifier)
    else match ReadSegments(ts[2..])
      case Err(e) => Err(e)
      case Ok((more, rest)) => Ok(([ts[1].name] + more, rest))
  }

  /** `parse`, after lexing. */
  function ReadCondition(ts: seq<Tok>): Result<OrT, ParseError> {
    if ts == [] then Err(EmptyCondition)
    else match ReadOr(ts, 0)
      case Err(e) => Err(e)
      case Ok((t, rest)) => if rest == [] then Ok(t) else Err(Trailing(rest[0]))
  }

  // ------------------------------------------------------------------------ errors

  /** An error met in the first operand is the error of the whole. */
  lemma FirstOperandFails(ts: seq<Tok>, d: nat, e: ParseError)
    requires d + 4 <= MAX_DEPTH && !Next(ts, TNot) && ReadPrim(ts, d + 4) == Err(e)
    ensures ReadOr(ts, d) == Err(e)
  {
    assert ReadCmp(ts, d + 3) == Err(e);
    assert ReadNot(ts, d + 2) == Err(e);
    assert ReadAnd(ts, d + 1) == Err(e);
  }

  /** What the first operand does not use up is read on; what then is no operator ends it. */
  lemma OnlyOperand(ts: seq<Tok>, d: nat, t: Prim, rest: seq<Tok>)
    requires d + 4 <= MAX_DEPTH && !Next(ts, TNot) && ReadPrim(ts, d + 4) == Ok((t, rest))
    requires OpAt(rest).None? && !Next(rest, TAnd) && !Next(rest, TOr)
    ensures ReadOr(ts, d) == Ok((OrT(AndT(Pos(Single(t)), []), []), rest))
  {
    assert ReadCmp(ts, d + 3) == Ok((Single(t), rest));
    assert ReadNot(ts, d + 2) == Ok((Pos(Single(t)), rest));
    assert ReadAnd(ts, d + 1) == Ok((AndT(Pos(Single(t)), []), rest));
  }

  /** Texts that end too soon or go on too long, and what is said of each. */
  lemma ErrorsAreNamed(n: int, name: string)
    ensures ReadCondition([]) == Err(EmptyCondition)
    ensures ReadCondition([TRParen]) == Err(Unexpected(Some(TRParen)))
    ensures ReadCondition([TIdent(name), TDot]) == Err(ExpectedIdentifier)
    ensures ReadCondition([TLBracket, TInt(n), TInt(n)]) == Err(ExpectedCommaOrBracket)
    ensures ReadCondition([TInt(n), TInt(n)]) == Err(Trailing(TInt(n)))
    ensures ReadCondition([TLParen, TInt(n)]) == Err(ExpectedParen)
  {
    FirstOperandFails([TRParen], 0, Unexpected(Some(TRParen)));
    NoSegment(name);
    NoComma(n);
    OnlyOperand([TInt(n), TInt(n)], 0, LInt(n), [TInt(n)]);
    NoParen(n);
  }

  lemma NoSegment(name: string)
    ensures ReadCondition([TIdent(name), TDot]) == Err(ExpectedIdentifier)
  {
    FirstOperandFails([TIdent(name), TDot], 0, ExpectedIdentifier);
  }

  lemma NoComma(n: int)
    ensures ReadCondition([TLBracket, TInt(n), TInt(n)]) == Err(ExpectedCommaOrBracket)
  {
    var list := [TLBracket, TInt(n), TInt(n)];
    assert list[1..] == [TInt(n), TInt(n)] && list[1..][1..] == [TInt(n)];
    assert ReadPrim(list[1..], 5) == Ok((LInt(n), [TInt(n)]));
    assert ReadItems([TInt(n)], 5) == Err(ExpectedCommaOrBracket);
    assert ReadList(list[1..], 4) == Err(ExpectedCommaOrBracket);
    FirstOperandFails(list, 0, ExpectedCommaOrBracket);
  }

  lemma NoParen(n: int)
    ensures ReadCondition([TLParen, TInt(n)]) == Err(ExpectedParen)
  {
    assert [TInt(n)][1..] == [];
    OnlyOperand([TInt(n)], 5, LInt(n), []);
    assert [TLParen, TInt(n)][1..] == [TInt(n)];
    FirstOperandFails([TLParen, TInt(n)], 0, ExpectedParen);
  }

  // -------------------------------------------------------------------- soundness

  lemma Regroup(a: seq<Tok>, b: seq<Tok>, c: seq<Tok>, d: seq<Tok>)
    ensures a + (b + (c + d)) == a + b + c + d
  {
  }

  lemma {:induction false} OrIsSound(ts: seq<Tok>, d: nat)
    requires ReadOr(ts, d).Ok?
    ensures var (t, rest) := ReadOr(ts, d).value; ts == TokensOr(t) + rest && FitsOr(t, d)
    decreases |ts|, 5
  {
    AndIsSound(ts, d + 1);
    OrMoreIsSound(ReadAnd(ts, d + 1).value.1, d + 1);
  }

  lemma {:induction false} OrMoreIsSound(ts: seq<Tok>, d: nat)
    requires ReadOrMore(ts, d).Ok?
    ensures var (t, rest) := ReadOrMore(ts, d).value; ts == TokensOrMore(t) + rest && FitsAnds(t, d)
    decreases |ts|, 5
  {
    if Next(ts, TOr) {
      AndIsSound(ts[1..], d);
      var (t, rest) := ReadAnd(ts[1..], d).value;
      OrMoreIsSound(rest, d);
      var (more, rest') := ReadOrMore(rest, d).value;
      assert TokensOrMore([t] + more) == [TOr] + TokensAnd(t) + TokensOrMore(more) && FitsAnds([t] + more, d) by {
        assert ([t] + more)[1..] == more;
      }
      assert ts == [TOr] + ts[1..];
      Regroup([TOr], TokensAnd(t), TokensOrMore(more), rest');
    }
  }

  lemma {:induction false} AndIsSound(ts: seq<Tok>, d: nat)
    requires ReadAnd(ts, d).Ok?
    ensures var (t, rest) := ReadAnd(ts, d).value; ts == TokensAnd(t) + rest && FitsAnd(t, d)
    decreases |ts|, 4
  {
    NotIsSound(ts, d + 1);
    AndMoreIsSound(ReadNot(ts, d + 1).value.1, d + 1);
  }

  lemma {:induction false} AndMoreIsSound(ts: seq<Tok>, d: nat)
    requires ReadAndMore(ts, d).Ok?
    ensures var (t, rest) := ReadAndMore(ts, d).value; ts == TokensAndMore(t) + rest && FitsNots(t, d)
    decreases |ts|, 4
  {
    if Next(ts, TAnd) {
      NotIsSound(ts[1..], d);
      var (t, rest) := ReadNot(ts[1..], d).value;
      AndMoreIsSound(rest, d);
      var (more, rest') := ReadAndMore(rest, d).value;
      assert TokensAndMore([t] + more) == [TAnd] + TokensNot(t) + TokensAndMore(more) && FitsNots([t] + more, d) by {
        assert ([t] + more)[1..] == more;
      }
      assert ts == [TAnd] + ts[1..];
      Regroup([TAnd], TokensNot(t), TokensAndMore(more), rest');
    }
  }

  lemma {:induction false} NotIsSound(ts: seq<Tok>, d: nat)
    requires ReadNot(ts, d).Ok?
    ensures var (t, rest) := ReadNot(ts, d).value; ts == TokensNot(t) + rest && FitsNot(t, d)
    decreases |ts|, 3
  {
    if Next(ts, TNot) {
      NotIsSound(ts[1..], d + 1);
      var (inner, rest) := ReadNot(ts[1..], d + 1).value;
      assert ts == [TNot] + (TokensNot(inner) + rest);
    } else {
      CmpIsSound(ts, d + 1);
    }
  }

  lemma OpIsSound(ts: seq<Tok>)
    requires OpAt(ts).Some?
    ensures var op := OpAt(ts).value; ts == TokensOp(op) + ts[|TokensOp(op)|..]
  {
  }

  lemma {:induction false} CmpIsSound(ts: seq<Tok>, d: nat)
    requires ReadCmp(ts, d).Ok?
    ensures var (t, rest) := ReadCmp(ts, d).value; ts == TokensCmp(t) + rest && FitsCmp(t, d)
    decreases |ts|, 2
  {
    PrimIsSound(ts, d + 1);
    var (left, rest) := ReadPrim(ts, d + 1).value;
    if OpAt(rest).Some? {
      var op := OpAt(rest).value;
      OpIsSound(rest);
      PrimIsSound(rest[|TokensOp(op)|..], d + 1);
      var (right, rest') := ReadPrim(rest[|TokensOp(op)|..], d + 1).value;
      Regroup(TokensPrim(left), TokensOp(op), TokensPrim(right), rest');
      assert ReadCmp(ts, d) == Ok((Comparison(op, left, right), rest'));
    }
  }

  lemma {:induction false} PrimIsSound(ts: seq<Tok>, d: nat)
    requires ReadPrim(ts, d).Ok?
    ensures var (t, rest) := ReadPrim(ts, d).value; ts == TokensPrim(t) + rest && FitsPrim(t, d)
    decreases |ts|, 1
  {
    if ts[0] == TLParen {
      ParenIsSound(ts, d);
    } else if ts[0] == TLBracket {
      ListIsSound(ts[1..], d);
      assert ts == [TLBracket] + ts[1..];
    } else if ts[0].TIdent? {
      PathIsSound(ts, d);
    } else {
      assert ts == [ts[0]] + ts[1..];
    }
  }

  lemma {:induction false} ParenIsSound(ts: seq<Tok>, d: nat)
    requires ReadPrim(ts, d).Ok? && Next(ts, TLParen)
    ensures var (t, rest) := ReadPrim(ts, d).value; ts == TokensPrim(t) + rest && FitsPrim(t, d)
    decreases |ts|, 0
  {
    OrIsSound(ts[1..], d + 1);
    var (inner, rest) := ReadOr(ts[1..], d + 1).value;
    assert ReadPrim(ts, d) == Ok((Paren(inner), rest[1..]));
    assert ts == [TLParen] + ts[1..] && rest == [TRParen] + rest[1..];
    Regroup([TLParen], TokensOr(inner), [TRParen], rest[1..]);
  }

  lemma FirstToken(ts: seq<Tok>, more: seq<Tok>, rest: seq<Tok>)
    requires ts != [] && ts[1..] == more + rest
    ensures ts == [ts[0]] + more + rest
  {
    assert ts == [ts[0]] + ts[1..];
  }

  lemma PathIsSound(ts: seq<Tok>, d: nat)
    requires ReadPrim(ts, d).Ok? && ts != [] && ts[0].TIdent?
    ensures var (t, rest) := ReadPrim(ts, d).value; ts == TokensPrim(t) + rest && FitsPrim(t, d)
  {
    SegmentsAreSound(ts[1..]);
    var (segments, rest) := ReadSegments(ts[1..]).value;
    assert ReadPrim(ts, d) == Ok((Ref(ts[0].name, segments), rest));
    FirstToken(ts, TokensSegments(segments), rest);
  }

  lemma {:induction false} ListIsSound(ts: seq<Tok>, d: nat)
    requires ReadList(ts, d).Ok? && d <= MAX_DEPTH
    ensures var (t, rest) := ReadList(ts, d).value; [TLBracket] + ts == TokensPrim(t) + rest && FitsPrim(t, d)
    decreases |ts|, 2
  {
    if Next(ts, TRBracket) {
      assert ts == [TRBracket] + ts[1..];
    } else {
      PrimIsSound(ts, d + 1);
      var (head, rest) := ReadPrim(ts, d + 1).value;
      ItemsAreSound(rest, d + 1);
      var ((tail, comma), rest') := ReadItems(rest, d + 1).value;
      assert ReadList(ts, d) == Ok((ListOf(head, tail, comma), rest'));
      Regroup([TLBracket], TokensPrim(head), TokensItems(tail, comma), rest');
    }
  }

  lemma {:induction false} ItemsAreSound(ts: seq<Tok>, d: nat)
    requires ReadItems(ts, d).Ok?
    ensures var ((t, comma), rest) := ReadItems(ts, d).value; ts == TokensItems(t, comma) + rest && FitsPrims(t, d)
    decreases |ts|, 0
  {
    if Next(ts, TRBracket) {
      assert ts == [TRBracket] + ts[1..];
    } else if Next(ts[1..], TRBracket) {
      assert ts == [TComma, TRBracket] + ts[2..];
    } else {
      PrimIsSound(ts[1..], d);
      var (t, rest) := ReadPrim(ts[1..], d).value;
      ItemsAreSound(rest, d);
      var ((more, comma), rest') := ReadItems(rest, d).value;
      assert ReadItems(ts, d) == Ok((([t] + more, comma), rest'));
      assert TokensItems([t] + more, comma) == [TComma] + TokensPrim(t) + TokensItems(more, comma)
             && FitsPrims([t] + more, d) by {
        assert ([t] + more)[1..] == more;
      }
      assert ts == [TComma] + ts[1..];
      Regroup([TComma], TokensPrim(t), TokensItems(more, comma), rest');
    }
  }

  lemma {:induction false} SegmentsAreSound(ts: seq<Tok>)
    requires ReadSegments(ts).Ok?
    ensures var (s, rest) := ReadSegments(ts).value; ts == TokensSegments(s) + rest
    decreases |ts|
  {
    if Next(ts, TDot) {
      SegmentsAreSound(ts[2..]);
      var (more, rest) := ReadSegments(ts[2..]).value;
      assert ([ts[1].name] + more)[1..] == more;
      assert ts == [TDot, ts[1]] + (TokensSegments(more) + rest);
    }
  }

  // ----------------------------------------------------------------- completeness

  /** Tokens that cannot continue a primary, a comparison, an `and` chain, an `or` chain. */
  predicate EndsPrim(ts: seq<Tok>) {
    !Next(ts, TDot)
  }

  predicate EndsCmp(ts: seq<Tok>) {
    EndsPrim(ts) && OpAt(ts).None?
  }

  predicate EndsAnd(ts: seq<Tok>) {
    EndsCmp(ts) && !Next(ts, TAnd)
  }

  predicate EndsOr(ts: seq<Tok>) {
    EndsAnd(ts) && !Next(ts, TOr)
  }

  /** How a primary starts: never like an operator, a negation or a closing bracket. */
  lemma PrimStarts(t: Prim)
    ensures TokensPrim(t) != []
    ensures TokensPrim(t)[0] !in {TNot, TRBracket, TDot, TOr, TAnd}
  {
  }

  lemma AndMoreStart(ts: seq<NotT>, rest: seq<Tok>)
    requires EndsAnd(rest)
    ensures EndsCmp(TokensAndMore(ts) + rest)
  {
    if ts == [] { assert TokensAndMore(ts) + rest == rest; }
  }

  lemma OrMoreStart(ts: seq<AndT>, rest: seq<Tok>)
    requires EndsOr(rest)
    ensures EndsAnd(TokensOrMore(ts) + rest)
  {
    if ts == [] { assert TokensOrMore(ts) + rest == rest; }
  }

  lemma AfterTheOperator(op: Tok, first: seq<Tok>, more: seq<Tok>, rest: seq<Tok>)
    ensures var all := [op] + first + more + rest;
            Next(all, op) && all[1..] == first + (more + rest)
  {
  }

  lemma {:induction false} OrIsComplete(t: OrT, rest: seq<Tok>, d: nat)
    requires FitsOr(t, d) && EndsOr(rest)
    ensures ReadOr(TokensOr(t) + rest, d) == Ok((t, rest))
    decreases t, 1
  {
    var after := TokensOrMore(t.tail) + rest;
    assert TokensOr(t) + rest == TokensAnd(t.head) + after;
    AndIsComplete(t.head, after, d + 1);
    OrMoreIsComplete(t.tail, rest, d + 1);
  }

  lemma {:induction false} OrMoreIsComplete(ts: seq<AndT>, rest: seq<Tok>, d: nat)
    requires FitsAnds(ts, d) && EndsOr(rest)
    ensures ReadOrMore(TokensOrMore(ts) + rest, d) == Ok((ts, rest))
    decreases ts, 0
  {
    if ts == [] {
      assert TokensOrMore(ts) + rest == rest;
    } else {
      var after := TokensOrMore(ts[1..]) + rest;
      var all := TokensOrMore(ts) + rest;
      AfterTheOperator(TOr, TokensAnd(ts[0]), TokensOrMore(ts[1..]), rest);
      OrMoreStart(ts[1..], rest);
      AndIsComplete(ts[0], after, d);
      OrMoreIsComplete(ts[1..], rest, d);
      OneMoreOr(all, ts, after, rest, d);
    }
  }

  lemma OneMoreOr(all: seq<Tok>, ts: seq<AndT>, after: seq<Tok>, rest: seq<Tok>, d: nat)
    requires ts != [] && Next(all, TOr) && ReadAnd(all[1..], d) == Ok((ts[0], after))
    requires ReadOrMore(after, d) == Ok((ts[1..], rest))
    ensures ReadOrMore(all, d) == Ok((ts, rest))
  {
    assert [ts[0]] + ts[1..] == ts;
  }

  lemma {:induction false} AndIsComplete(t: AndT, rest: seq<Tok>, d: nat)
    requires FitsAnd(t, d) && EndsAnd(rest)
    ensures ReadAnd(TokensAnd(t) + rest, d) == Ok((t, rest))
    decreases t, 1
  {
    var after := TokensAndMore(t.tail) + rest;
    assert TokensAnd(t) + rest == TokensNot(t.head) + after;
    NotIsComplete(t.head, after, d + 1);
    AndMoreIsComplete(t.tail, rest, d + 1);
  }

  lemma {:induction false} AndMoreIsComplete(ts: seq<NotT>, rest: seq<Tok>, d: nat)
    requires FitsNots(ts, d) && EndsAnd(rest)
    ensures ReadAndMore(TokensAndMore(ts) + rest, d) == Ok((ts, rest))
    decreases ts, 0
  {
    if ts == [] {
      assert TokensAndMore(ts) + rest == rest;
    } else {
      var after := TokensAndMore(ts[1..]) + rest;
      var all := TokensAndMore(ts) + rest;
      AfterTheOperator(TAnd, TokensNot(ts[0]), TokensAndMore(ts[1..]), rest);
      AndMoreStart(ts[1..], rest);
      NotIsComplete(ts[0], after, d);
      AndMoreIsComplete(ts[1..], rest, d);
      OneMoreAnd(all, ts, after, rest, d);
    }
  }

  lemma OneMoreAnd(all: seq<Tok>, ts: seq<NotT>, after: seq<Tok>, rest: seq<Tok>, d: nat)
    requires ts != [] && Next(all, TAnd) && ReadNot(all[1..], d) == Ok((ts[0], after))
    requires ReadAndMore(after, d) == Ok((ts[1..], rest))
    ensures ReadAndMore(all, d) == Ok((ts, rest))
  {
    assert [ts[0]] + ts[1..] == ts;
  }

  lemma {:induction false} NotIsComplete(t: NotT, rest: seq<Tok>, d: nat)
    requires FitsNot(t, d) && EndsCmp(rest)
    ensures ReadNot(TokensNot(t) + rest, d) == Ok((t, rest))
    decreases t, 1
  {
    match t
    case Neg(inner) =>
      assert (TokensNot(t) + rest)[1..] == TokensNot(inner) + rest;
      NotIsComplete(inner, rest, d + 1);
    case Pos(cmp) =>
      CmpStarts(cmp);
      CmpIsComplete(cmp, rest, d + 1);
  }

  lemma CmpStarts(t: CmpT)
    ensures TokensCmp(t) != [] && TokensCmp(t)[0] != TNot
  {
    match t
    case Single(prim) => PrimStarts(prim);
    case Comparison(_, left, _) => PrimStarts(left);
  }

  lemma OpIsComplete(op: CmpOp, rest: seq<Tok>)
    requires rest != [] && rest[0] != TDot
    ensures OpAt(TokensOp(op) + rest) == Some(op)
    ensures (TokensOp(op) + rest)[|TokensOp(op)|..] == rest
    ensures EndsPrim(TokensOp(op) + rest)
  {
  }

  lemma {:induction false} CmpIsComplete(t: CmpT, rest: seq<Tok>, d: nat)
    requires FitsCmp(t, d) && EndsCmp(rest)
    ensures ReadCmp(TokensCmp(t) + rest, d) == Ok((t, rest))
    decreases t, 1
  {
    match t
    case Single(prim) =>
      PrimIsComplete(prim, rest, d + 1);
    case Comparison(op, left, right) =>
      var after := TokensPrim(right) + rest;
      PrimStarts(right);
      OpIsComplete(op, after);
      assert TokensCmp(t) + rest == TokensPrim(left) + (TokensOp(op) + after);
      PrimIsComplete(left, TokensOp(op) + after, d + 1);
      PrimIsComplete(right, rest, d + 1);
  }

  lemma {:induction false} PrimIsComplete(t: Prim, rest: seq<Tok>, d: nat)
    requires FitsPrim(t, d) && EndsPrim(rest)
    ensures ReadPrim(TokensPrim(t) + rest, d) == Ok((t, rest))
    decreases t, 1
  {
    var all := TokensPrim(t) + rest;
    if t.Paren? {
      ParenIsComplete(t, rest, d);
    } else if t.ListOf? {
      ListIsComplete(t, rest, d);
    } else if t.Ref? {
      assert all[1..] == TokensSegments(t.segments) + rest;
      SegmentsAreComplete(t.segments, rest);
    } else if t.EmptyList? {
      assert all[1..] == [TRBracket] + rest && ([TRBracket] + rest)[1..] == rest;
    } else {
      assert all[1..] == rest;
    }
  }

  lemma {:induction false} ParenIsComplete(t: Prim, rest: seq<Tok>, d: nat)
    requires t.Paren? && FitsPrim(t, d)
    ensures ReadPrim(TokensPrim(t) + rest, d) == Ok((t, rest))
    decreases t, 0
  {
    var all := TokensPrim(t) + rest;
    var after := [TRParen] + rest;
    assert all[0] == TLParen && all[1..] == TokensOr(t.inner) + after;
    OrIsComplete(t.inner, after, d + 1);
    assert Next(after, TRParen) && after[1..] == rest;
  }

  lemma {:induction false} ListIsComplete(t: Prim, rest: seq<Tok>, d: nat)
    requires t.ListOf? && FitsPrim(t, d)
    ensures ReadPrim(TokensPrim(t) + rest, d) == Ok((t, rest))
    decreases t, 0
  {
    var all := TokensPrim(t) + rest;
    var after := TokensItems(t.tail, t.comma) + rest;
    Regroup([TLBracket], TokensPrim(t.head), TokensItems(t.tail, t.comma), rest);
    assert all == [TLBracket] + (TokensPrim(t.head) + after);
    assert all[0] == TLBracket && all[1..] == TokensPrim(t.head) + after;
    PrimStarts(t.head);
    ItemsStart(t.tail, t.comma);
    PrimIsComplete(t.head, after, d + 1);
    ItemsAreComplete(t.tail, t.comma, rest, d + 1);
    assert !Next(all[1..], TRBracket);
  }

  lemma ItemsStart(ts: seq<Prim>, comma: bool)
    ensures TokensItems(ts, comma) != [] && TokensItems(ts, comma)[0] in {TComma, TRBracket}
  {
  }

  lemma ItemsEnd(comma: bool, rest: seq<Tok>, d: nat)
    ensures ReadItems(TokensItems([], comma) + rest, d) == Ok((([], comma), rest))
  {
    var all := TokensItems([], comma) + rest;
    assert comma ==> all[1..] == [TRBracket] + rest && all[2..] == rest;
    assert !comma ==> all[1..] == rest;
  }

  /** A comma, an item and what comes after it. */
  lemma ReadOneItem(t: Prim, after: seq<Tok>, more: seq<Prim>, comma: bool, rest: seq<Tok>, d: nat)
    requires ReadPrim(TokensPrim(t) + after, d) == Ok((t, after)) && ReadItems(after, d) == Ok(((more, comma), rest))
    ensures ReadItems([TComma] + (TokensPrim(t) + after), d) == Ok((([t] + more, comma), rest))
  {
    var all := [TComma] + (TokensPrim(t) + after);
    assert all[1..] == TokensPrim(t) + after;
    PrimStarts(t);
  }

  lemma {:induction false} ItemsAreComplete(ts: seq<Prim>, comma: bool, rest: seq<Tok>, d: nat)
    requires FitsPrims(ts, d)
    ensures ReadItems(TokensItems(ts, comma) + rest, d) == Ok(((ts, comma), rest))
    decreases ts, 1
  {
    if ts == [] {
      ItemsEnd(comma, rest, d);
    } else {
      SomeItemsAreComplete(ts, comma, rest, d);
    }
  }

  lemma FirstOfItems(ts: seq<Prim>, comma: bool, rest: seq<Tok>)
    requires ts != []
    ensures TokensItems(ts, comma) + rest == [TComma] + (TokensPrim(ts[0]) + (TokensItems(ts[1..], comma) + rest))
    ensures [ts[0]] + ts[1..] == ts
  {
  }

  lemma {:induction false} SomeItemsAreComplete(ts: seq<Prim>, comma: bool, rest: seq<Tok>, d: nat)
    requires FitsPrims(ts, d) && ts != []
    ensures ReadItems(TokensItems(ts, comma) + rest, d) == Ok(((ts, comma), rest))
    decreases ts, 0
  {
    var after := TokensItems(ts[1..], comma) + rest;
    FirstOfItems(ts, comma, rest);
    ItemsStart(ts[1..], comma);
    PrimIsComplete(ts[0], after, d);
    ItemsAreComplete(ts[1..], comma, rest, d);
    ReadOneItem(ts[0], after, ts[1..], comma, rest, d);
  }

  lemma {:induction false} SegmentsAreComplete(segments: seq<string>, rest: seq<Tok>)
    requires EndsPrim(rest)
    ensures ReadSegments(TokensSegments(segments) + rest) == Ok((segments, rest))
  {
    var all := TokensSegments(segments) + rest;
    if segments == [] {
      assert all == rest;
    } else {
      assert all[2..] == TokensSegments(segments[1..]) + rest;
      SegmentsAreComplete(segments[1..], rest);
      assert [segments[0]] + segments[1..] == segments;
    }
  }

  /** The parser accepts a token list exactly when it spells a derivation within the
      depth budget, and then it reads that derivation. */
  lemma ParserIsExact(ts: seq<Tok>, t: OrT)
    ensures ReadCondition(ts) == Ok(t) <==> ts == TokensOr(t) && FitsOr(t, 0)
  {
    if ReadCondition(ts) == Ok(t) {
      OrIsSound(ts, 0);
      assert TokensOr(t) + [] == TokensOr(t);
    }
    if ts == TokensOr(t) && FitsOr(t, 0) {
      OrIsComplete(t, [], 0);
      assert TokensOr(t) + [] == ts;
    }
  }

  /** So no token list has two derivations within the budget. */
  lemma GrammarIsUnambiguous(a: OrT, b: OrT)
    requires TokensOr(a) == TokensOr(b) && FitsOr(a, 0) && FitsOr(b, 0)
    ensures a == b
  {
    ParserIsExact(TokensOr(a), a);
    ParserIsExact(TokensOr(b), b);
  }

  // ------------------------------------------------------------- the parser class

  /** What a parse promises: the meaning of the derivation read from the old position,
      with the position moved past it, or the error. */
  ghost predicate Follows<T>(toks: seq<Tok>, pos: nat, r: Result<Expr, ParseError>, read: Read<T>, ast: T -> Expr) {
    match read
    case Err(e) => r == Err(e)
    case Ok((t, rest)) => r == Ok(ast(t)) && pos <= |toks| && toks[pos..] == rest
  }

  lemma SlicesFrom(toks: seq<Tok>, pos: nat)
    requires pos <= |toks|
    ensures pos < |toks| ==> toks[pos..][0] == toks[pos] && toks[pos..][1..] == toks[pos + 1..]
    ensures pos + 1 < |toks| ==> toks[pos..][1..][0] == toks[pos + 1] && toks[pos..][2..] == toks[pos + 2..]
  {
  }

  class Parser {
    const toks: seq<Tok>
    var pos: nat

    constructor (toks: seq<Tok>)
      ensures this.toks == toks && pos == 0
    {
      this.toks := toks;
      pos := 0;
    }

    function Peek(): (r: Option<Tok>)
      reads this
      ensures r == if pos < |toks| then Some(toks[pos]) else None
    {
      if pos < |toks| then Some(toks[pos]) else None
    }

    method NextTok() returns (t: Option<Tok>)
      requires pos <= |toks|
      modifies this`pos
      ensures t == old(Peek())
      ensures pos == if old(pos) < |toks| then old(pos) + 1 else old(pos)
    {
      t := Peek();
      if t.Some? { pos := pos + 1; }
    }

    method ParseOr(depth: nat) returns (r: Result<Expr, ParseError>)
      requires pos <= |toks|
      modifies this`pos
      ensures pos <= |toks| && Follows(toks, pos, r, ReadOr(toks[old(pos)..], depth), t => AstOr(t))
      decreases |toks| - pos, 5
    {
      if depth > MAX_DEPTH { return Err(TooDeep); }
      ghost var start := toks[pos..];
      var first := ParseAnd(depth + 1);
      if first.Err? || Peek() != Some(TOr) { return first; }
      ghost var head := ReadAnd(start, depth + 1).value.0;
      ghost var more := ReadOrMore(toks[pos..], depth + 1);
      PrependNone(more);
      ghost var done: seq<AndT> := [];
      var terms := [first.value];
      while Peek() == Some(TOr)
        invariant old(pos) < pos <= |toks|
        invariant terms == [AstAnd(head)] + AstAnds(done)
        invariant more == Prepend(done, ReadOrMore(toks[pos..], depth + 1))
        invariant done == [] ==> Peek() == Some(TOr)
        decreases |toks| - pos
      {
        ghost var here := toks[pos..];
        pos := pos + 1;
        assert here[1..] == toks[pos..];
        var term := ParseAnd(depth + 1);
        if term.Err? { return term; }
        ghost var t := ReadAnd(here[1..], depth + 1).value.0;
        AstAndsSnoc(done, t);
        PrependOne(done, t, ReadOrMore(toks[pos..], depth + 1));
        terms := terms + [term.value];
        done := done + [t];
      }
      assert done + [] == done;
      return Ok(EOr(terms));
    }

    method ParseAnd(depth: nat) returns (r: Result<Expr, ParseError>)
      requires pos <= |toks|
      modifies this`pos
      ensures pos <= |toks| && Follows(toks, pos, r, ReadAnd(toks[old(pos)..], depth), t => AstAnd(t))
      decreases |toks| - pos, 4
    {
      ghost var start := toks[pos..];
      var first := ParseNot(depth + 1);
      if first.Err? || Peek() != Some(TAnd) { return first; }
      ghost var head := ReadNot(start, depth + 1).value.0;
      ghost var more := ReadAndMore(toks[pos..], depth + 1);
      PrependNone(more);
      ghost var done: seq<NotT> := [];
      var terms := [first.value];
      while Peek() == Some(TAnd)
        invariant old(pos) < pos <= |toks|
        invariant terms == [AstNot(head)] + AstNots(done)
        invariant more == Prepend(done, ReadAndMore(toks[pos..], depth + 1))
        invariant done == [] ==> Peek() == Some(TAnd)
        decreases |toks| - pos
      {
        ghost var here := toks[pos..];
        pos := pos + 1;
        assert here[1..] == toks[pos..];
        var term := ParseNot(depth + 1);
        if term.Err? { return term; }
        ghost var t := ReadNot(here[1..], depth + 1).value.0;
        AstNotsSnoc(done, t);
        PrependOne(done, t, ReadAndMore(toks[pos..], depth + 1));
        terms := terms + [term.value];
        done := done + [t];
      }
      assert done + [] == done;
      return Ok(EAnd(terms));
    }

    method ParseNot(depth: nat) returns (r: Result<Expr, ParseError>)
      requires pos <= |toks|
      modifies this`pos
      ensures pos <= |toks| && Follows(toks, pos, r, ReadNot(toks[old(pos)..], depth), t => AstNot(t))
      decreases |toks| - pos, 3
    {
      if depth > MAX_DEPTH { return Err(TooDeep); }
      if Peek() == Some(TNot) {
        ghost var here := toks[pos..];
        pos := pos + 1;
        assert here[1..] == toks[pos..];
        var inner := ParseNot(depth + 1);
        if inner.Err? { return inner; }
        return Ok(ENot(inner.value));
      }
      r := ParseCmp(depth + 1);
    }

    /** The operator match of `parse_cmp`. */
    method ParseOp() returns (op: Option<CmpOp>)
      requires pos <= |toks|
      modifies this`pos
      ensures op == OpAt(toks[old(pos)..]) && old(pos) <= pos <= |toks|
      ensures op.None? ==> pos == old(pos)
      ensures op.Some? ==> toks[pos..] == toks[old(pos)..][|TokensOp(op.value)|..]
    {
      SlicesFrom(toks, pos);
      match Peek() {
        case Some(TEq) => op := Some(Eq);
        case Some(TNe) => op := Some(Ne);
        case Some(TLt) => op := Some(Lt);
        case Some(TLe) => op := Some(Le);
        case Some(TGt) => op := Some(Gt);
        case Some(TGe) => op := Some(Ge);
        case Some(TIn) => op := Some(In);
        case Some(TNot) =>
          if !(pos + 1 < |toks| && toks[pos + 1] == TIn) { return None; }
          pos := pos + 1;
          op := Some(NotIn);
        case _ => return None;
      }
      pos := pos + 1;
    }

    method ParseCmp(depth: nat) returns (r: Result<Expr, ParseError>)
      requires pos <= |toks|
      modifies this`pos
      ensures pos <= |toks| && Follows(toks, pos, r, ReadCmp(toks[old(pos)..], depth), t => AstCmp(t))
      decreases |toks| - pos, 2
    {
      var left := ParsePrimary(depth + 1);
      if left.Err? { return left; }
      ghost var rest := toks[pos..];
      var op := ParseOp();
      if op.None? { return left; }
      var right := ParsePrimary(depth + 1);
      if right.Err? { return right; }
      return Ok(ECmp(op.value, left.value, right.value));
    }

    method ParsePrimary(depth: nat) returns (r: Result<Expr, ParseError>)
      requires pos <= |toks|
      modifies this`pos
      ensures pos <= |toks| && Follows(toks, pos, r, ReadPrim(toks[old(pos)..], depth), t => AstPrim(t))
      decreases |toks| - pos, 1
    {
      if depth > MAX_DEPTH { return Err(TooDeep); }
      ghost var start := toks[pos..];
      var tok := NextTok();
      assert start != [] ==> start[1..] == toks[pos..];
      match tok {
        case Some(TLParen) =>
          var e := ParseOr(depth + 1);
          if e.Err? { return e; }
          var close := NextTok();
          if close != Some(TRParen) { return Err(ExpectedParen); }
          return e;
        case Some(TStr(s)) => return Ok(EStr(s));
        case Some(TInt(n)) => return Ok(EInt(n));
        case Some(TFloat(f)) => return Ok(EFloat(f));
        case Some(TBool(b)) => return Ok(EBool(b));
        case Some(TNull) => return Ok(ENull);
        case Some(TLBracket) =>
          r := ParseListRest(depth);
        case Some(TIdent(first)) =>
          r := ParsePathRest(first);
        case _ => return Err(Unexpected(tok));
      }
    }

    /** A list literal, after its opening bracket. */
    method ParseListRest(depth: nat) returns (r: Result<Expr, ParseError>)
      requires pos <= |toks|
      modifies this`pos
      ensures pos <= |toks| && Follows(toks, pos, r, ReadList(toks[old(pos)..], depth), t => AstPrim(t))
      decreases |toks| - pos, 3
    {
      ghost var start := toks[pos..];
      if Peek() == Some(TRBracket) {
        pos := pos + 1;
        assert start[1..] == toks[pos..];
        return Ok(EList([]));
      }
      r := ParsePrimary(depth + 1);
      if r.Ok? {
        r := ParseListTail(r.value, ReadPrim(start, depth + 1).value.0, start, depth);
      }
    }

    /** What comes after the first item of a list. */
    method ParseListTail(first: Expr, ghost head: Prim, ghost start: seq<Tok>, depth: nat) returns (r: Result<Expr, ParseError>)
      requires pos <= |toks| && !Next(start, TRBracket)
      requires ReadPrim(start, depth + 1) == Ok((head, toks[pos..])) && first == AstPrim(head)
      modifies this`pos
      ensures pos <= |toks| && Follows(toks, pos, r, ReadList(start, depth), t => AstPrim(t))
      decreases |toks| - pos, 3
    {
      var items := ParseItems(depth + 1);
      if items.Err? { return Err(items.error); }
      return Ok(EList([first] + items.value));
    }

    /** The loop over the items of a list, from the end of its first item. */
    method ParseItems(depth: nat) returns (r: Result<seq<Expr>, ParseError>)
      requires pos <= |toks|
      modifies this`pos
      ensures pos <= |toks|
      ensures match ReadItems(toks[old(pos)..], depth)
              case Err(e) => r == Err(e)
              case Ok(((ts, _), rest)) => r == Ok(AstPrims(ts)) && toks[pos..] == rest
      decreases |toks| - pos, 2
    {
      ghost var whole := ReadItems(toks[pos..], depth);
      PrependNoItems(whole);
      ghost var done: seq<Prim> := [];
      var items: seq<Expr> := [];
      while true
        invariant old(pos) <= pos <= |toks|
        invariant items == AstPrims(done)
        invariant whole == PrependItems(done, ReadItems(toks[pos..], depth))
        decreases |toks| - pos
      {
        ghost var here := toks[pos..];
        var sep := NextTok();
        assert here != [] ==> here[1..] == toks[pos..];
        if sep == Some(TRBracket) {
          assert done + [] == done;
          return Ok(items);
        }
        if sep != Some(TComma) { return Err(ExpectedCommaOrBracket); }
        if Peek() == Some(TRBracket) {
          pos := pos + 1;
          assert here[2..] == toks[pos..];
          assert done + [] == done;
          return Ok(items);
        }
        var item := ParsePrimary(depth);
        if item.Err? { return Err(item.error); }
        ghost var t := ReadPrim(here[1..], depth).value.0;
        AstPrimsSnoc(done, t);
        PrependOneItem(done, t, ReadItems(toks[pos..], depth));
        items := items + [item.value];
        done := done + [t];
      }
    }

    /** A dotted path, after its first identifier. */
    method ParsePathRest(first: string) returns (r: Result<Expr, ParseError>)
      requires 0 < pos <= |toks| && toks[pos - 1] == TIdent(first)
      modifies this`pos
      ensures pos <= |toks|
      ensures match ReadSegments(toks[old(pos)..])
              case Err(e) => r == Err(e)
              case Ok((segments, rest)) => r == Ok(EVar([first] + segments)) && toks[pos..] == rest
    {
      ghost var whole := ReadSegments(toks[pos..]);
      PrependNone(whole);
      ghost var done: seq<string> := [];
      var path := [first];
      while Peek() == Some(TDot)
        invariant pos <= |toks|
        invariant path == [first] + done
        invariant whole == Prepend(done, ReadSegments(toks[pos..]))
        decreases |toks| - pos
      {
        ghost var here := toks[pos..];
        pos := pos + 1;
        var seg := NextTok();
        if !(seg.Some? && seg.value.TIdent?) { return Err(ExpectedIdentifier); }
        assert here[2..] == toks[pos..];
        PrependOne(done, seg.value.name, ReadSegments(toks[pos..]));
        path := path + [seg.value.name];
        done := done + [seg.value.name];
      }
      assert done + [] == done;
      return Ok(EVar(path));
    }
  }

  /** A chain read so far, followed by the rest of it. */
  function Prepend<T>(done: seq<T>, read: Read<seq<T>>): Read<seq<T>> {
    match read
    case Err(e) => Err(e)
    case Ok((more, rest)) => Ok((done + more, rest))
  }

  lemma PrependNone<T>(read: Read<seq<T>>)
    ensures Prepend([], read) == read
  {
    if read.Ok? { assert [] + read.value.0 == read.value.0; }
  }

  lemma PrependNoItems(read: Read<(seq<Prim>, bool)>)
    ensures PrependItems([], read) == read
  {
    if read.Ok? { assert [] + read.value.0.0 == read.value.0.0; }
  }

  lemma PrependOne<T>(done: seq<T>, t: T, read: Read<seq<T>>)
    ensures Prepend(done, Prepend([t], read)) == Prepend(done + [t], read)
  {
    if read.Ok? { assert done + ([t] + read.value.0) == done + [t] + read.value.0; }
  }

  function PrependItems(done: seq<Prim>, read: Read<(seq<Prim>, bool)>): Read<(seq<Prim>, bool)> {
    match read
    case Err(e) => Err(e)
    case Ok(((more, comma), rest)) => Ok(((done + more, comma), rest))
  }

  lemma PrependOneItem(done: seq<Prim>, t: Prim, read: Read<(seq<Prim>, bool)>)
    ensures PrependItems(done, PrependItems([t], read)) == PrependItems(done + [t], read)
  {
    if read.Ok? { assert done + ([t] + read.value.0.0) == done + [t] + read.value.0.0; }
  }

  lemma {:induction false} AstAndsSnoc(ts: seq<AndT>, t: AndT)
    ensures AstAnds(ts + [t]) == AstAnds(ts) + [AstAnd(t)]
  {
    if ts != [] {
      assert (ts + [t])[1..] == ts[1..] + [t];
      AstAndsSnoc(ts[1..], t);
    }
  }

  lemma {:induction false} AstNotsSnoc(ts: seq<NotT>, t: NotT)
    ensures AstNots(ts + [t]) == AstNots(ts) + [AstNot(t)]
  {
    if ts != [] {
      assert (ts + [t])[1..] == ts[1..] + [t];
      AstNotsSnoc(ts[1..], t);
    }
  }

  lemma {:induction false} AstPrimsSnoc(ts: seq<Prim>, t: Prim)
    ensures AstPrims(ts + [t]) == AstPrims(ts) + [AstPrim(t)]
  {
    if ts != [] {
      assert (ts + [t])[1..] == ts[1..] + [t];
      AstPrimsSnoc(ts[1..], t);
    }
  }

  /** `parse`, after lexing. What it returns is the meaning of the one derivation the
      tokens spell, and it returns it whenever there is one within the depth budget. */
  method Parse(toks: seq<Tok>) returns (r: Result<Expr, ParseError>)
    ensures match ReadCondition(toks) case Ok(t) => r == Ok(AstOr(t)) case Err(e) => r == Err(e)
    ensures r.Ok? <==> exists t :: toks == TokensOr(t) && FitsOr(t, 0)
    ensures r.Ok? ==> [] !in PathsOf(r.value) && ExprHeight(r.value) <= 65
  {
    if toks == [] {
      r := Err(EmptyCondition);
    } else {
      var p := new Parser(toks);
      assert toks[0..] == toks;
      r := p.ParseOr(0);
      if r.Ok? && p.pos != |toks| {
        r := Err(Trailing(toks[p.pos]));
      }
    }
    forall t | toks == TokensOr(t) && FitsOr(t, 0) ensures r.Ok? {
      ParserIsExact(toks, t);
    }
    if r.Ok? {
      var t := ReadCondition(toks).value;
      ParserIsExact(toks, t);
      OrHeight(t, 0);
      OrPaths(t);
    }
  }
}
