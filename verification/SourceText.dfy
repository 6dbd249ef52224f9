/**
  Statements as source text: the printer's words, spelled out with blanks between them, lex and
  parse back to the statement.
 */
module SourceText {
  import opened Common
  import opened Lexer
  import opened LexerTiling
  import opened Expressions
  import opened Parser
  import opened Printer
  import opened StatementPrinter

  // ---------------------------------------------------------------- keywords

  // Length and first letter tell the keywords apart.
  function Code(word: Text): int {
    if word == [] then 0 else 256 * |word| + word[0] as int
  }

  const CODES: seq<int> := [
    256 * 6 + 115, 256 * 4 + 102, 256 * 5 + 119, 256 * 6 + 105, 256 * 4 + 105,
    256 * 6 + 118, 256 * 6 + 99, 256 * 5 + 116, 256 * 4 + 100, 256 * 4 + 110,
    256 * 3 + 97, 256 * 2 + 111, 256 * 3 + 110, 256 * 2 + 97, 256 * 5 + 111,
    256 * 2 + 98, 256 * 5 + 108, 256 * 4 + 116, 256 * 5 + 102]

  lemma KeywordCodes()
    ensures |KEYWORDS| == |CODES| && forall i :: 0 <= i < |KEYWORDS| ==> Code(KEYWORDS[i].0) == CODES[i]
    ensures forall i, j :: 0 <= i < j < |CODES| ==> CODES[i] != CODES[j]
  {
  }

  lemma {:induction false} LookupFinds(table: seq<(Text, TokenType)>, i: nat)
    requires i < |table| && forall j :: 0 <= j < i ==> table[j].0 != table[i].0
    ensures LookupIn(table, table[i].0) == table[i].1
  {
    if i > 0 {
      assert table[1..][i - 1] == table[i];
      LookupFinds(table[1..], i - 1);
    }
  }

  function KeywordIndex(ty: TokenType): Option<nat> {
    match ty
    case Select => Some(0) case From => Some(1) case Where => Some(2) case Insert => Some(3) case Into => Some(4)
    case Values => Some(5) case Create => Some(6) case Table => Some(7) case Drop => Some(8) case NullKeyword => Some(9)
    case AndKeyword => Some(10) case OrKeyword => Some(11) case NotKeyword => Some(12) case As => Some(13) case Order => Some(14)
    case By => Some(15) case Limit => Some(16) case True => Some(17) case False => Some(18)
    case _ => None
  }

  lemma SpellingIsKeyword(ty: TokenType)
    requires KeywordIndex(ty).Some?
    ensures |KEYWORDS| == 19 && KEYWORDS[KeywordIndex(ty).value] == (Spelling(ty), ty)
  {
  }

  predicate AllLetters(word: Text) {
    forall i :: 0 <= i < |word| ==> 'a' <= word[i] <= 'z'
  }

  lemma KeywordLetters()
    ensures forall i :: 0 <= i < |KEYWORDS| ==> KEYWORDS[i].0 != [] && AllLetters(KEYWORDS[i].0)
  {
  }

  lemma {:induction false} LettersRunOut(word: Text, i: nat)
    requires AllLetters(word) && i <= |word|
    ensures IdentifierEnd(word, i) == |word|
    decreases |word| - i
  {
    if i < |word| {
      LettersRunOut(word, i + 1);
    }
  }

  lemma LettersFold(word: Text)
    requires AllLetters(word)
    ensures FoldIdentifierKey(word) == word
  {
  }

  lemma LookupByCode(table: seq<(Text, TokenType)>, codes: seq<int>, i: nat)
    requires |table| == |codes| && i < |table| && forall k :: 0 <= k < |table| ==> Code(table[k].0) == codes[k]
    requires forall j, k :: 0 <= j < k < |codes| ==> codes[j] != codes[k]
    ensures LookupIn(table, table[i].0) == table[i].1
  {
    hide Code;
    forall j | 0 <= j < i ensures table[j].0 != table[i].0 {
      assert Code(table[j].0) != Code(table[i].0);
    }
    LookupFinds(table, i);
  }

  lemma WordFromLookup(word: Text, ty: TokenType)
    requires word != [] && AllLetters(word) && LookupIn(KEYWORDS, word) == ty && ty != Invalid
    ensures IsWordOf(Lexeme(ty, word))
  {
    hide LookupIn, IdentifierEnd, FoldIdentifierKey;
    LettersFold(word);
    LettersRunOut(word, 1);
    assert word[0..|word|] == word;
    assert IsAlpha(word[0]);
  }

  lemma KeywordIsWord(ty: TokenType)
    requires KeywordIndex(ty).Some?
    ensures IsWordOf(Fixed(ty))
  {
    hide Spelling, KeywordIndex, LookupIn, IsWordOf, Code, AllLetters;
    SpellingIsKeyword(ty);
    KeywordCodes();
    var i: nat := KeywordIndex(ty).value;
    KeywordRange(ty);
    LookupByCode(KEYWORDS, CODES, i);
    KeywordLetters();
    KeywordTokens(ty);
    WordFromLookup(Spelling(ty), ty);
  }

  lemma KeywordRange(ty: TokenType)
    requires KeywordIndex(ty).Some?
    ensures KeywordIndex(ty).value < 19
  {
  }

  lemma KeywordTokens(ty: TokenType)
    requires KeywordIndex(ty).Some?
    ensures ty != Invalid
  {
  }

  // ---------------------------------------------------------------- the other words

  predicate IsOperator(ty: TokenType) {
    ty.PlusSign? || ty.MinusSign? || ty.StarSign? || ty.Slash? || ty.EqualSign? || ty.NotEqualSign? || ty.LessSign?
    || ty.LessEqualSign? || ty.GreaterSign? || ty.GreaterEqualSign? || ty.LeftParen? || ty.RightParen? || ty.Comma?
    || ty.Dot? || ty.Semicolon?
  }

  lemma OperatorIsWord(ty: TokenType)
    requires IsOperator(ty)
    ensures IsWordOf(Fixed(ty))
  {
  }

  lemma {:induction false} DigitsRunOut(word: Text, i: nat)
    requires AllDigits(word) && i <= |word|
    ensures NumberEnd(word, i) == |word|
    decreases |word| - i
  {
    if i < |word| {
      DigitsRunOut(word, i + 1);
    }
  }

  lemma DigitsAreWord(word: Text)
    requires word != [] && AllDigits(word)
    ensures IsWordOf(Lexeme(IntegerToken, word))
  {
    DigitsRunOut(word, 1);
  }

  lemma {:induction false} QuotedBodyEnds(text: Text, i: nat, s: Text)
    requires i <= |text| && text[i..] == QuoteBody(s) + "'"
    ensures StringEnd(text, i) == Some(|text|)
    decreases |s|
  {
    var tail := text[i..];
    assert tail[0] == text[i];
    if s == [] {
      assert |tail| == 1;
    } else if s[0] == '\'' {
      assert tail == "''" + (QuoteBody(s[1..]) + "'");
      assert tail[1] == text[i + 1];
      assert text[i + 2..] == tail[2..];
      QuotedBodyEnds(text, i + 2, s[1..]);
    } else {
      assert tail == [s[0]] + (QuoteBody(s[1..]) + "'");
      assert text[i + 1..] == tail[1..];
      QuotedBodyEnds(text, i + 1, s[1..]);
    }
  }

  lemma QuotedIsWord(s: Text)
    ensures IsWordOf(Lexeme(StringToken, Quote(s)))
  {
    var q := Quote(s);
    assert q[0] == '\'' && q[1..] == QuoteBody(s) + "'";
    QuotedBodyEnds(q, 1, s);
  }

  // ---------------------------------------------------------------- printed words

  // A token with a fixed spelling, digits or a quoted string; or a name.
  predicate Spelled(t: Lexeme) {
    IsWordOf(t) || t.ty == Identifier
  }

  ghost predicate AllSpelled(ts: seq<Lexeme>) {
    forall i :: 0 <= i < |ts| ==> Spelled(ts[i])
  }

  lemma FixedIsSpelled(ty: TokenType)
    requires KeywordIndex(ty).Some? || IsOperator(ty)
    ensures Spelled(Fixed(ty))
  {
    hide IsWordOf;
    if KeywordIndex(ty).Some? {
      KeywordIsWord(ty);
    } else {
      OperatorIsWord(ty);
    }
  }

  lemma {:induction false} DottedTailIsSpelled(rest: Text)
    ensures AllSpelled(DottedTail(rest))
    decreases |rest|
  {
    hide IsWordOf, Spelling;
    if rest != [] {
      FixedIsSpelled(Dot);
      var body := rest[1..];
      DottedTailIsSpelled(body[FirstDot(body)..]);
    }
  }

  lemma IntegerIsSpelled(i: int64)
    ensures AllSpelled(PrintInteger(i))
  {
    hide IsWordOf, Decimal, Spelling;
    FixedIsSpelled(MinusSign);
    if i >= 0 {
      DecimalReadsBack(i);
      DigitsAreWord(Decimal(i));
    } else if i == INT64_MIN {
      MinMagnitudeValue();
      DigitsAreWord(MIN_MAGNITUDE);
    } else {
      DecimalReadsBack(0 - i);
      DigitsAreWord(Decimal(0 - i));
    }
  }

  lemma OperatorTypeIsOperator(op: BinaryOperator)
    ensures Spelled(Fixed(OperatorType(op)))
  {
    hide IsWordOf, Spelling, Spelled;
    var ty := OperatorType(op);
    assert IsOperator(ty) || KeywordIndex(ty).Some?;
    FixedIsSpelled(ty);
  }

  lemma {:induction false} BodyIsSpelled(e: Expr)
    ensures AllSpelled(PrintBody(e))
    decreases e, 0
  {
    hide IsWordOf, Spelling, PrintInteger, DottedTail, PrintOperand, PrintNotOperand, Spelled, Quote, OperatorType;
    match e {
      case IntegerLiteral(i) => IntegerIsSpelled(i);
      case StringLiteral(s) => QuotedIsSpelled(s);
      case BooleanLiteral(b) => FixedIsSpelled(if b then True else False);
      case NullLiteral => FixedIsSpelled(NullKeyword);
      case StarExpr => FixedIsSpelled(StarSign);
      case ColumnRef(name) => NameIsSpelled(name[..FirstDot(name)]); DottedTailIsSpelled(name[FirstDot(name)..]);
      case UnaryExpr(op, x) =>
        FixedIsSpelled(match op { case Not => NotKeyword case Plus => PlusSign case Minus => MinusSign });
        OperandIsSpelled(x, PREFIX_LEVEL);
        NotOperandIsSpelled(x);
      case BinaryExpr(l, op, r) =>
        OperatorTypeIsOperator(op);
        OperandIsSpelled(l, Precedence(op));
        OperandIsSpelled(r, Precedence(op) + 1);
    }
  }

  lemma NameIsSpelled(name: Text)
    ensures Spelled(Lexeme(Identifier, name))
  {
  }

  lemma QuotedIsSpelled(s: Text)
    ensures Spelled(Lexeme(StringToken, Quote(s)))
  {
    QuotedIsWord(s);
  }

  lemma {:induction false} OperandIsSpelled(e: Expr, level: nat)
    ensures AllSpelled(PrintOperand(e, level))
    decreases e, 1
  {
    hide IsWordOf, Spelling, PrintBody, Spelled;
    BodyIsSpelled(e);
    FixedIsSpelled(LeftParen);
    FixedIsSpelled(RightParen);
  }

  lemma {:induction false} NotOperandIsSpelled(e: Expr)
    ensures AllSpelled(PrintNotOperand(e))
    decreases e, 2
  {
    hide PrintBody, PrintOperand, Spelled;
    BodyIsSpelled(e);
    OperandIsSpelled(e, NOT_PRECEDENCE);
  }

  lemma {:induction false} ProjectionsAreSpelled(ps: seq<SelectProjection>)
    ensures AllSpelled(PrintProjections(ps))
  {
    hide IsWordOf, Spelling, PrintBody, Spelled;
    if ps != [] {
      BodyIsSpelled(ps[0].expression);
      FixedIsSpelled(As);
      FixedIsSpelled(Comma);
      NameIsSpelled(ps[0].alias);
      ProjectionsAreSpelled(ps[1..]);
    }
  }

  lemma {:induction false} MoreAreSpelled(es: seq<Expr>)
    ensures AllSpelled(PrintMore(es))
  {
    hide IsWordOf, Spelling, PrintBody, Spelled;
    if es != [] {
      BodyIsSpelled(es[0]);
      FixedIsSpelled(Comma);
      MoreAreSpelled(es[1..]);
    }
  }

  lemma {:induction false} ColumnsAreSpelled(cs: seq<ColumnDefinition>)
    ensures AllSpelled(PrintColumns(cs))
  {
    hide IsWordOf, Spelling;
    if cs != [] {
      FixedIsSpelled(Comma);
      TypeIsName(cs[0].ty);
      ColumnsAreSpelled(cs[1..]);
    }
  }

  lemma TypeIsName(ty: TypeName)
    ensures TypeLexeme(ty).ty == Identifier
  {
  }

  lemma SelectIsSpelled(s: Statement)
    requires Printable(s) && s.SelectStatement?
    ensures AllSpelled(PrintStatement(s))
  {
    hide IsWordOf, Spelling, PrintBody, Spelled, PrintProjections, Producible;
    ProjectionsAreSpelled(s.projections);
    FixedIsSpelled(Select);
    FixedIsSpelled(From);
    FixedIsSpelled(Where);
    NameIsSpelled(s.tableName);
    if s.where.Some? {
      BodyIsSpelled(s.where.value);
    }
  }

  lemma InsertIsSpelled(s: Statement)
    requires Printable(s) && s.InsertStatement?
    ensures AllSpelled(PrintStatement(s))
  {
    hide IsWordOf, Spelling, PrintBody, Spelled, PrintMore, Producible;
    BodyIsSpelled(s.values[0]);
    MoreAreSpelled(s.values[1..]);
    FixedIsSpelled(Insert);
    FixedIsSpelled(Into);
    FixedIsSpelled(Values);
    FixedIsSpelled(LeftParen);
    FixedIsSpelled(RightParen);
    NameIsSpelled(s.tableName);
  }

  lemma CreateIsSpelled(s: Statement)
    requires Printable(s) && s.CreateTableStatement?
    ensures AllSpelled(PrintStatement(s))
  {
    hide IsWordOf, Spelling, Spelled, PrintColumns;
    ColumnsAreSpelled(s.columns);
    FixedIsSpelled(Create);
    FixedIsSpelled(Table);
    FixedIsSpelled(LeftParen);
    FixedIsSpelled(RightParen);
    NameIsSpelled(s.tableName);
  }

  // ---------------------------------------------------------------- text

  // A blank before every word.
  function Blanked(ts: seq<Lexeme>): (items: seq<Spaced>)
    ensures |items| == |ts|
  {
    seq(|ts|, i requires 0 <= i < |ts| => Spaced(true, ts[i]))
  }

  lemma BlankCanFollow(word: Text)
    requires word != []
    ensures CanFollow(word, ' ') && CanFollow(word, 0 as char)
  {
  }

  lemma {:induction false} BlankedIsSpellable(ts: seq<Lexeme>)
    requires forall i :: 0 <= i < |ts| ==> IsWordOf(ts[i])
    ensures Spellable(Blanked(ts)) && Words(Blanked(ts)) == ts
    ensures ts != [] ==> Spell(Blanked(ts)) != [] && Spell(Blanked(ts))[0] == ' '
  {
    hide IsWordOf, CanFollow;
    if ts != [] {
      var rest := ts[1..];
      BlankedIsSpellable(rest);
      assert Blanked(ts)[1..] == Blanked(rest) && Blanked(ts)[0] == Spaced(true, ts[0]);
      WordIsNotEmpty(ts[0]);
      BlankCanFollow(ts[0].text);
      assert ts == [ts[0]] + rest;
    }
  }

  lemma WordIsNotEmpty(w: Lexeme)
    requires IsWordOf(w)
    ensures w.text != []
  {
  }

  function StatementText(s: Statement): Text
    requires Printable(s)
  {
    Spell(Blanked(PrintStatement(s)))
  }

  lemma {:induction false} NameRunsOut(name: Text, i: nat)
    requires i <= |name|
    ensures IdentifierEnd(name, i) == |name| <==> forall k :: i <= k < |name| ==> IsAlphaNumeric(name[k])
    decreases |name| - i
  {
    if i < |name| && IsAlphaNumeric(name[i]) {
      NameRunsOut(name, i + 1);
    }
  }

  // Which names are identifier words.
  lemma NameIsWordExactly(name: Text)
    ensures IsWordOf(Lexeme(Identifier, name)) <==>
            && name != [] && IsAlpha(name[0]) && (forall k :: 0 <= k < |name| ==> IsAlphaNumeric(name[k]))
            && LookupKeyword(name) == Identifier
  {
    hide LookupKeyword, IdentifierEnd;
    if name != [] {
      NameRunsOut(name, 1);
      assert name[0..|name|] == name;
    }
  }

  // Every name the statement uses is a word of its own: letters, digits and underscores, not
  // starting with a digit, and no keyword.
  ghost predicate NamesAreWords(s: Statement)
    requires Printable(s)
  {
    forall i :: 0 <= i < |PrintStatement(s)| && PrintStatement(s)[i].ty == Identifier ==> IsWordOf(PrintStatement(s)[i])
  }

  // Printed text lexes and parses back to the statement.
  lemma StatementTextParsesBack(s: Statement)
    requires Printable(s) && NamesAreWords(s)
    ensures TokenizeText(StatementText(s)).Ok?
    ensures var ts := Lexemes(TokenizeText(StatementText(s)).value);
            Terminated(ts) && ParseStatement(ts) == Ok(s)
  {
    hide IsWordOf, PrintStatement, Spell, Spellable, TokenizeText, ParseStatement, Producible, Blanked;
    var ls := PrintStatement(s);
    if s.SelectStatement? {
      SelectIsSpelled(s);
    } else if s.InsertStatement? {
      InsertIsSpelled(s);
    } else {
      CreateIsSpelled(s);
    }
    assert forall i :: 0 <= i < |ls| ==> Spelled(ls[i]);
    BlankedIsSpellable(ls);
    SpelledTextLexesBack(Blanked(ls));
    StatementParsesBack(s, false);
  }
}
