/** From the text of a condition to its tokens, and on to its expression. */
module ConditionLexer {
  import opened Wrappers
  import opened Condition
  import opened ConditionGrammar
  import opened ConditionMeaning
  import opened ConditionParser
  import WriteKeys

  /** What the lexer asks of a character, and how the text of a float is read. */
  datatype Chars = Chars(
    space: char -> bool,
    letter: char -> bool,
    numeric: char -> bool,
    float: string -> Option<Float>)

  predicate Digit(c: char) {
    '0' <= c <= '9'
  }

  predicate AsciiLetter(c: char) {
    'a' <= c <= 'z' || 'A' <= c <= 'Z'
  }

  /** Characters that stand for themselves in the syntax. */
  predicate Sign(c: char) {
    c in "()[],.'\"=!<>-"
  }

  predicate WordStart(cs: Chars, c: char) {
    cs.letter(c) || c == '_'
  }

  predicate WordChar(cs: Chars, c: char) {
    cs.letter(c) || cs.numeric(c) || c == '_'
  }

  /** What Unicode promises of its classes of characters. */
  ghost predicate CharsOk(cs: Chars) {
    && cs.space(' ')
    && (forall c :: cs.space(c) ==> !cs.letter(c) && !cs.numeric(c) && !Digit(c) && !Sign(c) && c != '_')
    && (forall c :: cs.letter(c) ==> !Digit(c) && !Sign(c))
    && (forall c :: AsciiLetter(c) ==> cs.letter(c))
  }

  datatype LexError =
    | Unterminated
    | ExpectedEq
    | ExpectedNe
    | InvalidNumber(text: string)
    | UnexpectedChar(c: char)

  // ---------------------------------------------------------------- one token

  function Unescaped(c: char): char {
    if c == 'n' then '\n' else if c == 't' then '\t' else c
  }

  /** The text of a string up to its closing quote, and how far that is. */
  function ReadStr(src: string, quote: char): (r: Option<(string, nat)>)
    ensures r.Some? ==> 0 < r.value.1 <= |src|
  {
    if src == [] then None
    else if src[0] == '\\' && |src| > 1 then Shifted([Unescaped(src[1])], 2, ReadStr(src[2..], quote))
    else if src[0] == quote then Some(([], 1))
    else Shifted([src[0]], 1, ReadStr(src[1..], quote))
  }

  function Shifted(s: string, n: nat, r: Option<(string, nat)>): Option<(string, nat)> {
    if r.None? then None else Some((s + r.value.0, n + r.value.1))
  }

  function WordLen(cs: Chars, src: string): (n: nat)
    ensures n <= |src|
  {
    if src == [] || !WordChar(cs, src[0]) then 0 else 1 + WordLen(cs, src[1..])
  }

  /** A digit, or a point with a digit behind it. */
  predicate NumberGoesOn(src: string) {
    src != [] && (Digit(src[0]) || (src[0] == '.' && |src| > 1 && Digit(src[1])))
  }

  function NumberLen(src: string): (n: nat)
    ensures n <= |src|
  {
    if NumberGoesOn(src) then 1 + NumberLen(src[1..]) else 0
  }

  predicate IsI64(n: int) {
    -0x8000_0000_0000_0000 <= n < 0x8000_0000_0000_0000
  }

  function NumberTok(cs: Chars, text: string): Result<Tok, LexError> {
    if '.' in text then
      match cs.float(text)
      case Some(f) => Ok(TFloat(f))
      case None => Err(InvalidNumber(text))
    else
      match WriteKeys.ParseInt(text)
      case Some(n) => if IsI64(n) then Ok(TInt(n)) else Err(InvalidNumber(text))
      case None => Err(InvalidNumber(text))
  }

  function WordTok(word: string): Tok {
    if word == "and" then TAnd
    else if word == "or" then TOr
    else if word == "not" then TNot
    else if word == "in" then TIn
    else if word == "true" || word == "True" then TBool(true)
    else if word == "false" || word == "False" then TBool(false)
    else if word == "null" || word == "none" || word == "None" then TNull
    else TIdent(word)
  }

  predicate Quote(c: char) {
    c == '\'' || c == '"'
  }

  predicate NumberStart(src: string) {
    src != [] && (Digit(src[0]) || (src[0] == '-' && |src| > 1 && Digit(src[1])))
  }

  predicate OneChar(c: char) {
    c in "()[],."
  }

  function OneCharTok(c: char): Tok
    requires OneChar(c)
  {
    if c == '(' then TLParen
    else if c == ')' then TRParen
    else if c == '[' then TLBracket
    else if c == ']' then TRBracket
    else if c == ',' then TComma
    else TDot
  }

  /** The token at the front of a text that does not start with a space, and its length. */
  function NextTok(cs: Chars, src: string): (r: Result<(Tok, nat), LexError>)
    requires src != []
    ensures r.Ok? ==> 0 < r.value.1 <= |src|
  {
    var c := src[0];
    var equals := |src| > 1 && src[1] == '=';
    if OneChar(c) then Ok((OneCharTok(c), 1))
    else if Quote(c) then
      match ReadStr(src[1..], c)
      case Some((s, n)) => Ok((TStr(s), 1 + n))
      case None => Err(Unterminated)
    else if c == '=' then if equals then Ok((TEq, 2)) else Err(ExpectedEq)
    else if c == '!' then if equals then Ok((TNe, 2)) else Err(ExpectedNe)
    else if c == '<' then if equals then Ok((TLe, 2)) else Ok((TLt, 1))
    else if c == '>' then if equals then Ok((TGe, 2)) else Ok((TGt, 1))
    else if NumberStart(src) then
      var n := 1 + NumberLen(src[1..]);
      match NumberTok(cs, src[..n])
      case Ok(tok) => Ok((tok, n))
      case Err(e) => Err(e)
    else if WordStart(cs, c) then
      var n := 1 + WordLen(cs, src[1..]);
      Ok((WordTok(src[..n]), n))
    else Err(UnexpectedChar(c))
  }

  function LexAll(cs: Chars, src: string): Result<seq<Tok>, LexError>
    decreases |src|
  {
    if src == [] then Ok([])
    else if cs.space(src[0]) then LexAll(cs, src[1..])
    else match NextTok(cs, src)
      case Err(e) => Err(e)
      case Ok((tok, n)) => Prepended([tok], LexAll(cs, src[n..]))
  }

  function Prepended(toks: seq<Tok>, r: Result<seq<Tok>, LexError>): Result<seq<Tok>, LexError> {
    match r
    case Ok(more) => Ok(toks + more)
    case Err(e) => Err(e)
  }

  // ------------------------------------------------------------------ spelling

  /** `body` is what a string `s` looks like between its quotes. */
  predicate Inside(body: string, quote: char, s: string) {
    if body == [] then s == []
    else if body[0] == '\\' then
      |body| > 1 && s != [] && s[0] == Unescaped(body[1]) && Inside(body[2..], quote, s[1..])
    else body[0] != quote && s != [] && s[0] == body[0] && Inside(body[1..], quote, s[1..])
  }

  predicate QuotedAs(text: string, s: string) {
    |text| >= 2 && Quote(text[0]) && text[|text| - 1] == text[0] && Inside(text[1..|text| - 1], text[0], s)
  }

  predicate NumberTail(s: string) {
    s != [] ==> NumberGoesOn(s) && NumberTail(s[1..])
  }

  /** An optional sign, a digit, then digits and points that have a digit behind them. */
  predicate NumberText(text: string) {
    NumberStart(text) && NumberTail(text[1..])
  }

  predicate WordText(cs: Chars, text: string) {
    text != [] && WordStart(cs, text[0]) && forall c :: c in text[1..] ==> WordChar(cs, c)
  }

  predicate Keyword(text: string) {
    text in ["and", "or", "not", "in", "true", "True", "false", "False", "null", "none", "None"]
  }

  predicate FloatText(cs: Chars, text: string, f: Float) {
    NumberText(text) && '.' in text && cs.float(text) == Some(f)
  }

  /** `text` is a way to write the token. */
  predicate Spells(cs: Chars, text: string, tok: Tok) {
    match tok
    case TStr(s) => QuotedAs(text, s)
    case TInt(n) => NumberText(text) && '.' !in text && IsI64(n) && WriteKeys.ParseInt(text) == Some(n)
    case TFloat(f) => FloatText(cs, text, f)
    case TIdent(name) => text == name && WordText(cs, name) && !Keyword(name)
    case TBool(b) => text in (if b then ["true", "True"] else ["false", "False"])
    case TNull => text in ["null", "none", "None"]
    case TAnd => text == "and"
    case TOr => text == "or"
    case TNot => text == "not"
    case TIn => text == "in"
    case TEq => text == "=="
    case TNe => text == "!="
    case TLt => text == "<"
    case TLe => text == "<="
    case TGt => text == ">"
    case TGe => text == ">="
    case TLParen => text == "("
    case TRParen => text == ")"
    case TLBracket => text == "["
    case TRBracket => text == "]"
    case TComma => text == ","
    case TDot => text == "."
  }

  /** Written right before `rest`, the text would be read as something longer. */
  predicate RunsOn(cs: Chars, text: string, rest: string)
    requires text != []
  {
    if WordStart(cs, text[0]) then rest != [] && WordChar(cs, rest[0])
    else if NumberStart(text) then NumberGoesOn(rest)
    else (text == "<" || text == ">") && rest != [] && rest[0] == '='
  }

  lemma {:induction false} WordRead(cs: Chars, word: string, rest: string)
    requires forall c :: c in word ==> WordChar(cs, c)
    requires rest == [] || !WordChar(cs, rest[0])
    ensures WordLen(cs, word + rest) == |word|
  {
    if word == [] {
      assert word + rest == rest;
    } else {
      assert word[0] in word;
      assert (word + rest)[1..] == word[1..] + rest;
      WordRead(cs, word[1..], rest);
    }
  }

  lemma {:induction false} WordEnds(cs: Chars, src: string)
    ensures var n := WordLen(cs, src);
            (forall c :: c in src[..n] ==> WordChar(cs, c)) && (src[n..] == [] || !WordChar(cs, src[n]))
  {
    if src != [] && WordChar(cs, src[0]) {
      WordEnds(cs, src[1..]);
      var n := WordLen(cs, src[1..]);
      assert src[..1 + n] == [src[0]] + src[1..][..n];
    }
  }

  lemma {:induction false} NumberRead(num: string, rest: string)
    requires NumberTail(num) && !NumberGoesOn(rest)
    ensures NumberLen(num + rest) == |num|
  {
    if num == [] {
      assert num + rest == rest;
    } else {
      assert (num + rest)[1..] == num[1..] + rest;
      assert NumberGoesOn(num + rest);
      NumberRead(num[1..], rest);
    }
  }

  lemma {:induction false} NumberEnds(src: string)
    ensures var n := NumberLen(src);
            NumberTail(src[..n]) && !NumberGoesOn(src[n..])
  {
    if NumberGoesOn(src) {
      NumberEnds(src[1..]);
      var n := NumberLen(src[1..]);
      assert src[1 + n..] == src[1..][n..];
      PointHasDigit(src, n);
    } else {
      assert src[0..] == src;
    }
  }

  /** A number does not stop between a point and the digit behind it. */
  lemma PointHasDigit(src: string, n: nat)
    requires NumberGoesOn(src) && n == NumberLen(src[1..]) && NumberTail(src[1..][..n])
    ensures NumberTail(src[..1 + n])
  {
    var text := src[..1 + n];
    assert text[1..] == src[1..][..n];
    if !Digit(src[0]) {
      assert NumberGoesOn(src[1..]);
      assert text[1] == src[1];
    }
  }

  lemma {:induction false} StrRead(body: string, quote: char, s: string, rest: string)
    requires Quote(quote) && Inside(body, quote, s)
    ensures ReadStr(body + [quote] + rest, quote) == Some((s, |body| + 1))
  {
    var src := body + [quote] + rest;
    if body == [] {
    } else if body[0] == '\\' {
      assert src[2..] == body[2..] + [quote] + rest;
      StrRead(body[2..], quote, s[1..], rest);
      assert s == [s[0]] + s[1..];
    } else {
      assert src[1..] == body[1..] + [quote] + rest;
      StrRead(body[1..], quote, s[1..], rest);
      assert s == [s[0]] + s[1..];
    }
  }

  lemma {:induction false} StrEnds(src: string, quote: char)
    requires Quote(quote) && ReadStr(src, quote).Some?
    ensures var (s, n) := ReadStr(src, quote).value;
            src[n - 1] == quote && Inside(src[..n - 1], quote, s)
  {
    var (s, n) := ReadStr(src, quote).value;
    if src[0] == '\\' && |src| > 1 {
      StrEnds(src[2..], quote);
      assert src[..n - 1][2..] == src[2..][..n - 3];
    } else if src[0] != quote {
      StrEnds(src[1..], quote);
      assert src[..n - 1][1..] == src[1..][..n - 2];
    }
  }

  // ----------------------------------------------------- the next token, exactly

  /** What is read at the front of a text spells the token and does not run on. */
  lemma NextIsSpelled(cs: Chars, src: string)
    requires CharsOk(cs) && src != [] && NextTok(cs, src).Ok?
    ensures var (tok, n) := NextTok(cs, src).value;
            Spells(cs, src[..n], tok) && !RunsOn(cs, src[..n], src[n..])
  {
    var (tok, n) := NextTok(cs, src).value;
    var c := src[0];
    if Quote(c) {
      StrIsSpelled(cs, src);
    } else if NumberStart(src) {
      NumberIsSpelled(cs, src);
    } else if WordStart(cs, c) {
      WordIsSpelled(cs, src);
    } else {
      SignIsSpelled(cs, src);
    }
  }

  lemma StrIsSpelled(cs: Chars, src: string)
    requires CharsOk(cs) && src != [] && Quote(src[0]) && NextTok(cs, src).Ok?
    ensures var (tok, n) := NextTok(cs, src).value;
            Spells(cs, src[..n], tok) && !RunsOn(cs, src[..n], src[n..])
  {
    StrEnds(src[1..], src[0]);
    var (s, m) := ReadStr(src[1..], src[0]).value;
    assert src[..1 + m][1..m] == src[1..][..m - 1];
  }

  lemma NumberIsSpelled(cs: Chars, src: string)
    requires CharsOk(cs) && NumberStart(src) && NextTok(cs, src).Ok?
    ensures var (tok, n) := NextTok(cs, src).value;
            Spells(cs, src[..n], tok) && !RunsOn(cs, src[..n], src[n..])
  {
    NumberEnds(src[1..]);
    var n := 1 + NumberLen(src[1..]);
    assert NextTok(cs, src).value.1 == n;
    assert src[..n][1..] == src[1..][..n - 1] && src[n..] == src[1..][n - 1..];
    assert NumberStart(src[..n]) by {
      if src[0] == '-' { assert NumberGoesOn(src[1..]); }
    }
  }

  lemma WordIsSpelled(cs: Chars, src: string)
    requires CharsOk(cs) && src != [] && WordStart(cs, src[0]) && NextTok(cs, src).Ok?
    ensures var (tok, n) := NextTok(cs, src).value;
            Spells(cs, src[..n], tok) && !RunsOn(cs, src[..n], src[n..])
  {
    WordEnds(cs, src[1..]);
    var n := 1 + WordLen(cs, src[1..]);
    assert !Sign(src[0]) && !Digit(src[0]);
    assert NextTok(cs, src) == Ok((WordTok(src[..n]), n));
    assert src[..n][1..] == src[1..][..n - 1] && src[n..] == src[1..][n - 1..];
    WordTokSpelled(cs, src[..n]);
  }

  lemma WordTokSpelled(cs: Chars, word: string)
    requires WordText(cs, word)
    ensures Spells(cs, word, WordTok(word))
  {
  }

  lemma SignIsSpelled(cs: Chars, src: string)
    requires CharsOk(cs) && src != [] && !Quote(src[0]) && !NumberStart(src) && !WordStart(cs, src[0])
    requires NextTok(cs, src).Ok?
    ensures var (tok, n) := NextTok(cs, src).value;
            Spells(cs, src[..n], tok) && !RunsOn(cs, src[..n], src[n..])
  {
    var (tok, n) := NextTok(cs, src).value;
    assert src[..1] == [src[0]];
    if n == 2 { assert src[..2] == [src[0], src[1]]; }
  }

  /** A spelling that does not run on is read as its token, whatever comes behind. */
  lemma SpelledIsNext(cs: Chars, text: string, tok: Tok, rest: string)
    requires CharsOk(cs) && Spells(cs, text, tok) && text != [] && !RunsOn(cs, text, rest)
    ensures NextTok(cs, text + rest) == Ok((tok, |text|)) && !cs.space(text[0])
  {
    match tok
    case TStr(s) => SpelledStr(cs, text, s, rest);
    case TInt(_) => SpelledNumber(cs, text, tok, rest);
    case TFloat(_) => SpelledNumber(cs, text, tok, rest);
    case TIdent(_) => SpelledWord(cs, text, tok, rest);
    case TBool(_) => SpelledWord(cs, text, tok, rest);
    case TNull => SpelledWord(cs, text, tok, rest);
    case TAnd => SpelledWord(cs, text, tok, rest);
    case TOr => SpelledWord(cs, text, tok, rest);
    case TNot => SpelledWord(cs, text, tok, rest);
    case TIn => SpelledWord(cs, text, tok, rest);
    case _ => SpelledSign(cs, text, tok, rest);
  }

  lemma SpelledStr(cs: Chars, text: string, s: string, rest: string)
    requires CharsOk(cs) && QuotedAs(text, s)
    ensures NextTok(cs, text + rest) == Ok((TStr(s), |text|)) && !cs.space(text[0])
  {
    var body := text[1..|text| - 1];
    StrRead(body, text[0], s, rest);
    assert (text + rest)[1..] == body + [text[0]] + rest;
    assert Sign(text[0]);
  }

  lemma SpelledNumber(cs: Chars, text: string, tok: Tok, rest: string)
    requires CharsOk(cs) && NumberText(text) && NumberTok(cs, text) == Ok(tok) && !RunsOn(cs, text, rest)
    ensures NextTok(cs, text + rest) == Ok((tok, |text|)) && !cs.space(text[0])
  {
    assert !WordStart(cs, text[0]) && (Digit(text[0]) || Sign(text[0]));
    NumberIsNext(cs, text, rest);
  }

  lemma NumberIsNext(cs: Chars, text: string, rest: string)
    requires NumberText(text) && !NumberGoesOn(rest) && NumberTok(cs, text).Ok?
    ensures NextTok(cs, text + rest) == Ok((NumberTok(cs, text).value, |text|))
  {
    NumberRead(text[1..], rest);
    assert (text + rest)[1..] == text[1..] + rest && (text + rest)[..|text|] == text;
    assert NumberStart(text + rest);
  }

  predicate WordToken(tok: Tok) {
    tok.TIdent? || tok.TBool? || tok.TNull? || tok.TAnd? || tok.TOr? || tok.TNot? || tok.TIn?
  }

  lemma SpelledWord(cs: Chars, text: string, tok: Tok, rest: string)
    requires CharsOk(cs) && Spells(cs, text, tok) && WordToken(tok) && text != [] && !RunsOn(cs, text, rest)
    ensures NextTok(cs, text + rest) == Ok((tok, |text|)) && !cs.space(text[0])
  {
    SpelledIsAWord(cs, text, tok);
    WordIsNext(cs, text, rest);
  }

  lemma WordIsNext(cs: Chars, word: string, rest: string)
    requires CharsOk(cs) && WordText(cs, word) && (rest == [] || !WordChar(cs, rest[0]))
    ensures NextTok(cs, word + rest) == Ok((WordTok(word), |word|)) && !cs.space(word[0])
  {
    WordRead(cs, word[1..], rest);
    assert (word + rest)[1..] == word[1..] + rest && (word + rest)[..|word|] == word;
    assert !Sign(word[0]) && !Digit(word[0]);
  }

  lemma SpelledIsAWord(cs: Chars, text: string, tok: Tok)
    requires CharsOk(cs) && Spells(cs, text, tok) && WordToken(tok)
    ensures WordText(cs, text) && WordTok(text) == tok
  {
    if !tok.TIdent? {
      assert Keyword(text);
      KeywordIsAWord(cs, text);
    }
  }

  lemma KeywordIsAWord(cs: Chars, text: string)
    requires CharsOk(cs) && Keyword(text)
    ensures WordText(cs, text)
  {
    assert forall c :: c in text ==> AsciiLetter(c);
  }

  lemma SpelledSign(cs: Chars, text: string, tok: Tok, rest: string)
    requires CharsOk(cs) && Spells(cs, text, tok) && text != [] && !RunsOn(cs, text, rest)
    requires !WordToken(tok) && !tok.TStr? && !tok.TInt? && !tok.TFloat?
    ensures NextTok(cs, text + rest) == Ok((tok, |text|)) && !cs.space(text[0])
  {
    var src := text + rest;
    assert src[0] == text[0] && Sign(text[0]) && !WordStart(cs, text[0]);
    if |text| > 1 { assert src[1] == text[1]; }
  }

  // ------------------------------------------------------- a whole text, exactly

  /** A token as it was written, with the spaces before it. */
  datatype Lexeme = Lexeme(gap: string, text: string, tok: Tok)

  predicate Blank(cs: Chars, s: string) {
    forall c :: c in s ==> cs.space(c)
  }

  function Written(ls: seq<Lexeme>, end: string): string {
    if ls == [] then end else ls[0].gap + (ls[0].text + Written(ls[1..], end))
  }

  function Toks(ls: seq<Lexeme>): seq<Tok> {
    if ls == [] then [] else [ls[0].tok] + Toks(ls[1..])
  }

  /** Each lexeme spells its token and none runs on into what follows it. */
  predicate Legal(cs: Chars, ls: seq<Lexeme>, end: string) {
    if ls == [] then Blank(cs, end)
    else
      && Blank(cs, ls[0].gap)
      && ls[0].text != [] && Spells(cs, ls[0].text, ls[0].tok)
      && !RunsOn(cs, ls[0].text, Written(ls[1..], end))
      && Legal(cs, ls[1..], end)
  }

  /** `toks` can be written as `src`. */
  ghost predicate WrittenAs(cs: Chars, toks: seq<Tok>, src: string) {
    exists ls, end :: IsText(cs, ls, end, toks, src)
  }

  predicate IsText(cs: Chars, ls: seq<Lexeme>, end: string, toks: seq<Tok>, src: string) {
    Legal(cs, ls, end) && Written(ls, end) == src && Toks(ls) == toks
  }

  lemma {:induction false} BlankIsSkipped(cs: Chars, gap: string, src: string)
    requires Blank(cs, gap)
    ensures LexAll(cs, gap + src) == LexAll(cs, src)
  {
    if gap == [] {
      assert gap + src == src;
    } else {
      assert gap[0] in gap;
      assert (gap + src)[1..] == gap[1..] + src;
      BlankIsSkipped(cs, gap[1..], src);
    }
  }

  lemma {:induction false} LegalIsLexed(cs: Chars, ls: seq<Lexeme>, end: string)
    requires CharsOk(cs) && Legal(cs, ls, end)
    ensures LexAll(cs, Written(ls, end)) == Ok(Toks(ls))
  {
    if ls == [] {
      BlankIsSkipped(cs, end, []);
      assert end + [] == end;
    } else {
      var l := ls[0];
      var rest := Written(ls[1..], end);
      BlankIsSkipped(cs, l.gap, l.text + rest);
      SpelledIsNext(cs, l.text, l.tok, rest);
      LegalIsLexed(cs, ls[1..], end);
      assert (l.text + rest)[|l.text|..] == rest;
    }
  }

  lemma {:induction false} LexedIsLegal(cs: Chars, src: string) returns (ls: seq<Lexeme>, end: string)
    requires CharsOk(cs) && LexAll(cs, src).Ok?
    ensures IsText(cs, ls, end, LexAll(cs, src).value, src)
    decreases |src|
  {
    if src == [] {
      ls, end := [], [];
    } else if cs.space(src[0]) {
      ls, end := LexedIsLegal(cs, src[1..]);
      ls, end := AfterASpace(cs, src[0], ls, end);
      assert src == [src[0]] + src[1..];
    } else {
      var (tok, n) := NextTok(cs, src).value;
      NextIsSpelled(cs, src);
      ls, end := LexedIsLegal(cs, src[n..]);
      ls := OneLexemeMore(cs, src, n, tok, ls, end);
    }
  }

  lemma AfterASpace(cs: Chars, c: char, ls: seq<Lexeme>, end: string) returns (ls': seq<Lexeme>, end': string)
    requires cs.space(c) && Legal(cs, ls, end)
    ensures Legal(cs, ls', end') && Written(ls', end') == [c] + Written(ls, end) && Toks(ls') == Toks(ls)
  {
    if ls == [] {
      ls', end' := [], [c] + end;
    } else {
      var l := ls[0];
      ls', end' := [Lexeme([c] + l.gap, l.text, l.tok)] + ls[1..], end;
      assert [c] + l.gap + (l.text + Written(ls[1..], end)) == [c] + (l.gap + (l.text + Written(ls[1..], end)));
    }
  }

  lemma OneLexemeMore(cs: Chars, src: string, n: nat, tok: Tok, ls: seq<Lexeme>, end: string) returns (ls': seq<Lexeme>)
    requires 0 < n <= |src| && Spells(cs, src[..n], tok) && !RunsOn(cs, src[..n], src[n..])
    requires Legal(cs, ls, end) && Written(ls, end) == src[n..]
    ensures Legal(cs, ls', end) && Written(ls', end) == src && Toks(ls') == [tok] + Toks(ls)
  {
    ls' := [Lexeme([], src[..n], tok)] + ls;
    assert ls'[1..] == ls;
    assert [] + (src[..n] + src[n..]) == src;
  }

  /** The lexer reads a text as these tokens exactly when the text is a way to write them:
      spellings with spaces between, none longer than it reads. */
  lemma LexIsExact(cs: Chars, src: string, toks: seq<Tok>)
    requires CharsOk(cs)
    ensures LexAll(cs, src) == Ok(toks) <==> WrittenAs(cs, toks, src)
  {
    if LexAll(cs, src) == Ok(toks) {
      var ls, end := LexedIsLegal(cs, src);
      assert IsText(cs, ls, end, toks, src);
    }
    if WrittenAs(cs, toks, src) {
      var ls, end :| IsText(cs, ls, end, toks, src);
      LegalIsLexed(cs, ls, end);
    }
  }

  // ------------------------------------------------------------ what can be written

  /** Texts written one behind the other, a space before each. */
  function Spaced(texts: seq<string>): string {
    if texts == [] then [] else " " + (texts[0] + Spaced(texts[1..]))
  }

  ghost predicate SpellAll(cs: Chars, texts: seq<string>, toks: seq<Tok>) {
    |texts| == |toks| && forall k :: 0 <= k < |toks| ==> Spells(cs, texts[k], toks[k])
  }

  lemma SpellingIsSomething(cs: Chars, text: string, tok: Tok)
    requires Spells(cs, text, tok)
    ensures text != []
  {
  }

  lemma {:induction false} SpacedIsLegal(cs: Chars, texts: seq<string>, toks: seq<Tok>) returns (ls: seq<Lexeme>)
    requires CharsOk(cs) && SpellAll(cs, texts, toks)
    ensures IsText(cs, ls, [], toks, Spaced(texts))
    decreases |texts|
  {
    if texts == [] {
      ls := [];
    } else {
      var more := SpacedIsLegal(cs, texts[1..], toks[1..]);
      SpellingIsSomething(cs, texts[0], toks[0]);
      ls := [Lexeme(" ", texts[0], toks[0])] + more;
      assert ls[1..] == more;
      SpaceEnds(cs, texts[0], Spaced(texts[1..]));
    }
  }

  lemma SpaceEnds(cs: Chars, text: string, rest: string)
    requires CharsOk(cs) && text != [] && (rest == [] || rest[0] == ' ')
    ensures !RunsOn(cs, text, rest)
  {
  }

  /** So tokens that can each be written can be written together. */
  lemma SpacedIsLexed(cs: Chars, texts: seq<string>, toks: seq<Tok>)
    requires CharsOk(cs) && SpellAll(cs, texts, toks)
    ensures LexAll(cs, Spaced(texts)) == Ok(toks)
  {
    var ls := SpacedIsLegal(cs, texts, toks);
    assert WrittenAs(cs, toks, Spaced(texts));
    LexIsExact(cs, Spaced(texts), toks);
  }

  /** A string with a backslash before every quote and backslash. */
  function Escaped(s: string): string {
    if s == [] then []
    else (if s[0] == '\'' || s[0] == '\\' then ['\\', s[0]] else [s[0]]) + Escaped(s[1..])
  }

  lemma {:induction false} EscapedIsInside(s: string)
    ensures Inside(Escaped(s), '\'', s)
  {
    if s != [] {
      EscapedIsInside(s[1..]);
      if s[0] == '\'' || s[0] == '\\' {
        assert Escaped(s)[2..] == Escaped(s[1..]);
      } else {
        assert Escaped(s)[1..] == Escaped(s[1..]);
      }
    }
  }

  lemma {:induction false} DigitsAreATail(s: string)
    requires forall c :: c in s ==> Digit(c)
    ensures NumberTail(s)
  {
    if s != [] {
      assert s[0] in s;
      DigitsAreATail(s[1..]);
    }
  }

  lemma PrintedIsANumber(n: int)
    ensures NumberText(WriteKeys.PrintInt(n)) && '.' !in WriteKeys.PrintInt(n)
  {
    var digits := WriteKeys.PrintNat(if n < 0 then -n else n);
    assert forall c :: c in digits ==> Digit(c);
    DigitsAreATail(digits);
    DigitsAreATail(digits[1..]);
    if n < 0 {
      assert WriteKeys.PrintInt(n)[1..] == digits;
      assert digits[0] in digits;
    } else {
      assert digits[0] in digits;
    }
  }

  /** Exactly which tokens can be written: every string, every 64-bit integer, every word
      that is no keyword, the floats some number text stands for, and the rest. */
  lemma SpellableIff(cs: Chars, tok: Tok)
    ensures (exists text :: Spells(cs, text, tok)) <==>
            match tok
            case TInt(n) => IsI64(n)
            case TFloat(f) => exists text :: FloatText(cs, text, f)
            case TIdent(name) => WordText(cs, name) && !Keyword(name)
            case _ => true
  {
    match tok
    case TStr(s) =>
      EscapedIsInside(s);
      var text := "'" + Escaped(s) + "'";
      assert text[1..|text| - 1] == Escaped(s);
      assert Spells(cs, text, tok);
    case TInt(n) =>
      if IsI64(n) {
        PrintedIsANumber(n);
        WriteKeys.ParsePrintInt(n);
        assert Spells(cs, WriteKeys.PrintInt(n), tok);
      }
    case TFloat(f) =>
      if text :| FloatText(cs, text, f) { assert Spells(cs, text, tok); }
      assert forall text :: Spells(cs, text, tok) <==> FloatText(cs, text, f);
    case TIdent(name) =>
      if WordText(cs, name) && !Keyword(name) { assert Spells(cs, name, tok); }
    case _ => FixedIsSpelled(cs, tok);
  }

  lemma FixedIsSpelled(cs: Chars, tok: Tok)
    requires !tok.TStr? && !tok.TInt? && !tok.TFloat? && !tok.TIdent?
    ensures exists text :: Spells(cs, text, tok)
  {
    var text := match tok
      case TBool(b) => if b then "true" else "false"
      case TNull => "null"
      case TAnd => "and"
      case TOr => "or"
      case TNot => "not"
      case TIn => "in"
      case TEq => "=="
      case TNe => "!="
      case TLt => "<"
      case TLe => "<="
      case TGt => ">"
      case TGe => ">="
      case TLParen => "("
      case TRParen => ")"
      case TLBracket => "["
      case TRBracket => "]"
      case TComma => ","
      case _ => ".";
    assert Spells(cs, text, tok);
  }

  // ------------------------------------------------------------ text to expression

  datatype TextError = NotLexed(lex: LexError) | NotParsed(parse: ParseError)

  function ReadText(cs: Chars, src: string): Result<OrT, TextError> {
    match LexAll(cs, src)
    case Err(e) => Err(NotLexed(e))
    case Ok(toks) =>
      match ReadCondition(toks)
      case Err(e) => Err(NotParsed(e))
      case Ok(t) => Ok(t)
  }

  /** A text is read as a derivation exactly when it is a way to write its tokens and the
      derivation is within the depth budget. */
  lemma TextIsReadExactly(cs: Chars, src: string, t: OrT)
    requires CharsOk(cs)
    ensures ReadText(cs, src) == Ok(t) <==> WrittenAs(cs, TokensOr(t), src) && FitsOr(t, 0)
  {
    LexIsExact(cs, src, TokensOr(t));
    if LexAll(cs, src).Ok? { ParserIsExact(LexAll(cs, src).value, t); }
  }

  /** Every condition within the budget whose tokens can be written can be written, and is
      read back as itself. */
  lemma ConditionsCanBeWritten(cs: Chars, t: OrT, texts: seq<string>)
    requires CharsOk(cs) && FitsOr(t, 0) && SpellAll(cs, texts, TokensOr(t))
    ensures ReadText(cs, Spaced(texts)) == Ok(t)
  {
    SpacedIsLexed(cs, texts, TokensOr(t));
    ParserIsExact(TokensOr(t), t);
  }

  // ---------------------------------------------------------------- the loops

  /** The word at `start`, one character at a time. */
  method LexWord(cs: Chars, chars: string, start: nat) returns (i: nat)
    requires start < |chars| && WordStart(cs, chars[start])
    ensures i == start + 1 + WordLen(cs, chars[start + 1..]) && i <= |chars|
  {
    i := start;
    while i < |chars| && WordChar(cs, chars[i])
      invariant start <= i <= |chars|
      invariant start + WordLen(cs, chars[start..]) == i + WordLen(cs, chars[i..])
    {
      assert chars[i..][1..] == chars[i + 1..];
      i := i + 1;
    }
    assert chars[start..][1..] == chars[start + 1..];
  }

  /** The loop of `lex_number`: where the number ends, and whether it has a point. */
  method NumberExtent(chars: string, start: nat) returns (i: nat, isFloat: bool)
    requires start < |chars| && NumberStart(chars[start..])
    ensures i == start + 1 + NumberLen(chars[start + 1..]) && i <= |chars|
    ensures isFloat <==> '.' in chars[start..i]
  {
    i := start;
    if chars[i] == '-' {
      i := i + 1;
    }
    isFloat := false;
    ghost var from := i;
    assert chars[start..][1..] == chars[start + 1..];
    while i < |chars| && (Digit(chars[i]) || (chars[i] == '.' && i + 1 < |chars| && Digit(chars[i + 1])))
      invariant from <= i <= |chars|
      invariant from + NumberLen(chars[from..]) == i + NumberLen(chars[i..])
      invariant isFloat <==> '.' in chars[start..i]
    {
      assert chars[i..][1..] == chars[i + 1..];
      assert chars[start..i + 1] == chars[start..i] + [chars[i]];
      if !Digit(chars[i]) {
        isFloat := true;
      }
      i := i + 1;
    }
    assert i == from + NumberLen(chars[from..]);
  }

  /** `lex_number`. */
  method LexNumber(cs: Chars, chars: string, start: nat) returns (r: Result<(Tok, nat), LexError>)
    requires start < |chars| && NumberStart(chars[start..])
    ensures var end := start + 1 + NumberLen(chars[start + 1..]);
            && end <= |chars|
            && r == match NumberTok(cs, chars[start..end])
                    case Ok(tok) => Ok((tok, end))
                    case Err(e) => Err(e)
  {
    var i, isFloat := NumberExtent(chars, start);
    var text := chars[start..i];
    if isFloat {
      match cs.float(text)
      case Some(f) => r := Ok((TFloat(f), i));
      case None => r := Err(InvalidNumber(text));
    } else {
      match WriteKeys.ParseInt(text)
      case Some(n) => r := if IsI64(n) then Ok((TInt(n), i)) else Err(InvalidNumber(text));
      case None => r := Err(InvalidNumber(text));
    }
  }

  /** The text of a string, from behind its opening quote. */
  method LexString(chars: string, start: nat, quote: char) returns (r: Option<(string, nat)>)
    requires start <= |chars| && Quote(quote)
    ensures match ReadStr(chars[start..], quote)
            case None => r == None
            case Some((s, n)) => r == Some((s, start + n))
  {
    var i := start;
    var s := [];
    var closed := false;
    ShiftedByNothing(ReadStr(chars[start..], quote));
    while i < |chars| && !closed
      invariant start <= i <= |chars|
      invariant !closed ==> ReadSoFar(chars, start, i, quote, s)
      invariant closed ==> ReadStr(chars[start..], quote) == Some((s, i - start))
      decreases |chars| - i, !closed
    {
      OneCharMore(chars, start, i, quote, s);
      if chars[i] == '\\' && i + 1 < |chars| {
        s := s + [Unescaped(chars[i + 1])];
        i := i + 2;
      } else if chars[i] == quote {
        closed := true;
        i := i + 1;
      } else {
        s := s + [chars[i]];
        i := i + 1;
      }
    }
    r := if closed then Some((s, i)) else None;
  }

  ghost predicate ReadSoFar(chars: string, start: nat, i: nat, quote: char, s: string)
    requires start <= i <= |chars|
  {
    ReadStr(chars[start..], quote) == Shifted(s, i - start, ReadStr(chars[i..], quote))
  }

  lemma OneCharMore(chars: string, start: nat, i: nat, quote: char, s: string)
    requires start <= i < |chars| && Quote(quote) && ReadSoFar(chars, start, i, quote, s)
    ensures if chars[i] == '\\' && i + 1 < |chars| then
              ReadSoFar(chars, start, i + 2, quote, s + [Unescaped(chars[i + 1])])
            else if chars[i] == quote then ReadStr(chars[start..], quote) == Some((s, i + 1 - start))
            else ReadSoFar(chars, start, i + 1, quote, s + [chars[i]])
  {
    if chars[i] == '\\' && i + 1 < |chars| {
      assert chars[i..][2..] == chars[i + 2..];
      ShiftedTwice(s, i - start, [Unescaped(chars[i + 1])], 2, ReadStr(chars[i + 2..], quote));
    } else if chars[i] == quote {
      assert s + [] == s;
    } else {
      assert chars[i..][1..] == chars[i + 1..];
      ShiftedTwice(s, i - start, [chars[i]], 1, ReadStr(chars[i + 1..], quote));
    }
  }

  lemma ShiftedByNothing(r: Option<(string, nat)>)
    ensures Shifted([], 0, r) == r
  {
    if r.Some? { assert [] + r.value.0 == r.value.0; }
  }

  lemma ShiftedTwice(s: string, n: nat, s': string, n': nat, r: Option<(string, nat)>)
    ensures Shifted(s, n, Shifted(s', n', r)) == Shifted(s + s', n + n', r)
  {
    if r.Some? { assert s + (s' + r.value.0) == s + s' + r.value.0; }
  }

  /** `lex`. */
  method Lex(cs: Chars, src: string) returns (r: Result<seq<Tok>, LexError>)
    ensures r == LexAll(cs, src)
    ensures CharsOk(cs) && r.Ok? ==> WrittenAs(cs, r.value, src)
    ensures CharsOk(cs) ==> (r.Ok? <==> exists toks :: WrittenAs(cs, toks, src))
  {
    var toks := [];
    var i := 0;
    r := Ok([]);
    assert src[0..] == src;
    PrependedNothing(LexAll(cs, src));
    while i < |src|
      invariant i <= |src| && r.Ok?
      invariant LexAll(cs, src) == Prepended(toks, LexAll(cs, src[i..]))
    {
      if cs.space(src[i]) {
        assert src[i..][1..] == src[i + 1..];
        i := i + 1;
      } else {
        var next := LexOne(cs, src, i);
        if next.Err? {
          r := Err(next.error);
          break;
        }
        assert src[i..][next.value.1 - i..] == src[next.value.1..];
        PrependedTwice(toks, [next.value.0], LexAll(cs, src[next.value.1..]));
        toks := toks + [next.value.0];
        i := next.value.1;
      }
    }
    if r.Ok? {
      assert toks + [] == toks;
      r := Ok(toks);
    }
    LexedAsWritten(cs, src);
  }

  lemma PrependedNothing(r: Result<seq<Tok>, LexError>)
    ensures Prepended([], r) == r
  {
    if r.Ok? { assert [] + r.value == r.value; }
  }

  lemma PrependedTwice(a: seq<Tok>, b: seq<Tok>, r: Result<seq<Tok>, LexError>)
    ensures Prepended(a, Prepended(b, r)) == Prepended(a + b, r)
  {
    if r.Ok? { assert a + (b + r.value) == a + b + r.value; }
  }

  lemma LexedAsWritten(cs: Chars, src: string)
    ensures CharsOk(cs) ==> (LexAll(cs, src).Ok? <==> exists toks :: WrittenAs(cs, toks, src))
    ensures CharsOk(cs) && LexAll(cs, src).Ok? ==> WrittenAs(cs, LexAll(cs, src).value, src)
  {
    if CharsOk(cs) {
      if LexAll(cs, src).Ok? { LexIsExact(cs, src, LexAll(cs, src).value); }
      if toks :| WrittenAs(cs, toks, src) { LexIsExact(cs, src, toks); }
    }
  }

  /** What was read behind the first `i` characters. */
  function From(i: nat, r: Result<(Tok, nat), LexError>): Result<(Tok, nat), LexError> {
    match r
    case Ok((tok, n)) => Ok((tok, i + n))
    case Err(e) => Err(e)
  }

  /** One round of `lex`: the token at `i`, which is no space, and where it ends. */
  method LexOne(cs: Chars, chars: string, i: nat) returns (r: Result<(Tok, nat), LexError>)
    requires i < |chars|
    ensures r == From(i, NextTok(cs, chars[i..]))
  {
    var c := chars[i];
    if Quote(c) {
      var s := LexString(chars, i + 1, c);
      StrFrom(cs, chars, i);
      r := if s.Some? then Ok((TStr(s.value.0), s.value.1)) else Err(Unterminated);
    } else if OneChar(c) || c in "=!<>" {
      r := LexSign(cs, chars, i);
    } else if Digit(c) || (c == '-' && i + 1 < |chars| && Digit(chars[i + 1])) {
      r := LexNumber(cs, chars, i);
      NumberFrom(cs, chars, i);
    } else if WordStart(cs, c) {
      var end := LexWord(cs, chars, i);
      WordFrom(cs, chars, i);
      r := Ok((WordTok(chars[i..end]), end));
    } else {
      NothingFrom(cs, chars, i);
      r := Err(UnexpectedChar(c));
    }
  }

  method LexSign(cs: Chars, chars: string, i: nat) returns (r: Result<(Tok, nat), LexError>)
    requires i < |chars| && (OneChar(chars[i]) || chars[i] in "=!<>")
    ensures r == From(i, NextTok(cs, chars[i..]))
  {
    var c := chars[i];
    var equals := i + 1 < |chars| && chars[i + 1] == '=';
    if OneChar(c) {
      r := Ok((OneCharTok(c), i + 1));
    } else if c == '=' {
      r := if equals then Ok((TEq, i + 2)) else Err(ExpectedEq);
    } else if c == '!' {
      r := if equals then Ok((TNe, i + 2)) else Err(ExpectedNe);
    } else if c == '<' {
      r := if equals then Ok((TLe, i + 2)) else Ok((TLt, i + 1));
    } else {
      r := if equals then Ok((TGe, i + 2)) else Ok((TGt, i + 1));
    }
  }

  lemma StrFrom(cs: Chars, chars: string, i: nat)
    requires i < |chars| && Quote(chars[i])
    ensures From(i, NextTok(cs, chars[i..])) == match ReadStr(chars[i + 1..], chars[i])
                                                case Some((s, n)) => Ok((TStr(s), i + 1 + n))
                                                case None => Err(Unterminated)
  {
    assert chars[i..][1..] == chars[i + 1..];
  }

  lemma NothingFrom(cs: Chars, chars: string, i: nat)
    requires i < |chars| && !Quote(chars[i]) && !OneChar(chars[i]) && chars[i] !in "=!<>"
    requires !NumberStart(chars[i..]) && !WordStart(cs, chars[i])
    ensures NextTok(cs, chars[i..]) == Err(UnexpectedChar(chars[i]))
  {
  }

  lemma NumberFrom(cs: Chars, chars: string, i: nat)
    requires i < |chars| && NumberStart(chars[i..])
    ensures var end := i + 1 + NumberLen(chars[i + 1..]);
            && end <= |chars|
            && From(i, NextTok(cs, chars[i..])) == match NumberTok(cs, chars[i..end])
                                                   case Ok(tok) => Ok((tok, end))
                                                   case Err(e) => Err(e)
  {
    var end := i + 1 + NumberLen(chars[i + 1..]);
    assert chars[i..][1..] == chars[i + 1..];
    assert chars[i..][..end - i] == chars[i..end];
  }

  lemma WordFrom(cs: Chars, chars: string, i: nat)
    requires i < |chars| && WordStart(cs, chars[i]) && !Quote(chars[i]) && !OneChar(chars[i]) && chars[i] !in "=!<>"
    requires !NumberStart(chars[i..])
    ensures var end := i + 1 + WordLen(cs, chars[i + 1..]);
            end <= |chars| && From(i, NextTok(cs, chars[i..])) == Ok((WordTok(chars[i..end]), end))
  {
    var end := i + 1 + WordLen(cs, chars[i + 1..]);
    assert chars[i..][1..] == chars[i + 1..];
    assert chars[i..][..end - i] == chars[i..end];
  }

  /** `parse`: what it returns is the meaning of the derivation the text is written from. */
  method ParseText(cs: Chars, src: string) returns (r: Result<Expr, TextError>)
    ensures match ReadText(cs, src) case Ok(t) => r == Ok(AstOr(t)) case Err(e) => r == Err(e)
    ensures CharsOk(cs) ==> (r.Ok? <==> exists t :: WrittenAs(cs, TokensOr(t), src) && FitsOr(t, 0))
    ensures r.Ok? ==> [] !in PathsOf(r.value) && ExprHeight(r.value) <= 65
    ensures r.Ok? ==>
              forall sem, state :: Holds(sem, r.value, state) <==> OrHolds(sem, ReadText(cs, src).value, state)
  {
    var toks := Lex(cs, src);
    if toks.Err? {
      r := Err(NotLexed(toks.error));
    } else {
      var parsed := Parse(toks.value);
      r := match parsed case Ok(e) => Ok(e) case Err(e) => Err(NotParsed(e));
    }
    ReadWhenWritten(cs, src);
    if r.Ok? {
      forall sem, state ensures Holds(sem, r.value, state) <==> OrHolds(sem, ReadText(cs, src).value, state) {
        OrMeans(sem, ReadText(cs, src).value, state);
      }
    }
  }

  lemma ReadWhenWritten(cs: Chars, src: string)
    ensures CharsOk(cs) ==>
              (ReadText(cs, src).Ok? <==> exists t :: WrittenAs(cs, TokensOr(t), src) && FitsOr(t, 0))
  {
    if CharsOk(cs) {
      if ReadText(cs, src).Ok? { TextIsReadExactly(cs, src, ReadText(cs, src).value); }
      if t :| WrittenAs(cs, TokensOr(t), src) && FitsOr(t, 0) { TextIsReadExactly(cs, src, t); }
    }
  }
}
