/**
  The whole pipeline on literals: the SQL spelling of a value, selected by the engine, comes
  back as that value.
 */
module LiteralRoundTrip {
  import opened Common
  import opened Lexer
  import opened LexerTiling
  import opened Expressions
  import opened Plans
  import opened QueryExecution
  import opened Parser
  import opened Printer
  import opened StatementPrinter
  import opened SourceText
  import opened Binder
  import opened Executor
  import opened Engine
  import opened StatementMeaning
  import opened Refinement

  // FormatValue of value_utils.hpp.
  function FormatValue(v: Value): Text {
    match v
    case Null => "NULL"
    case Int(i) => if i < 0 then "-" + Decimal(0 - i) else Decimal(i)
    case Bool(b) => if b then "true" else "false"
    case Str(s) => s
  }

  // How a client writes a value in SQL: formatted, and text in doubled quotes.
  function SqlLiteral(v: Value): Text {
    if v.Str? then Quote(v.s) else FormatValue(v)
  }

  // ---------------------------------------------------------------- words and tree

  // The tree the parser builds: only the minimum integer is a negative literal.
  function LiteralExpr(v: Value): Expr
    requires !v.Null?
  {
    match v
    case Int(i) => if i >= 0 || i == INT64_MIN then IntegerLiteral(i) else UnaryExpr(Minus, IntegerLiteral(0 - i))
    case Bool(b) => BooleanLiteral(b)
    case Str(s) => StringLiteral(s)
  }

  function LiteralWords(v: Value): seq<Spaced>
    requires !v.Null?
  {
    match v
    case Int(i) =>
      if i >= 0 then [Spaced(true, Lexeme(IntegerToken, Decimal(i)))]
      else [Spaced(true, Fixed(MinusSign)), Spaced(false, Lexeme(IntegerToken, Decimal(0 - i)))]
    case Bool(b) => [Spaced(true, Fixed(if b then True else False))]
    case Str(s) => [Spaced(true, Lexeme(StringToken, Quote(s)))]
  }

  function SelectLiteral(v: Value): Statement
    requires !v.Null?
  {
    SelectStatement([SelectProjection(LiteralExpr(v), [])], [], None)
  }

  function QueryWords(v: Value): seq<Spaced>
    requires !v.Null?
  {
    [Spaced(false, Fixed(Select))] + LiteralWords(v)
  }

  lemma SpellOne(item: Spaced)
    ensures Spell([item]) == (if item.blank then " " else "") + item.word.text
  {
    assert [item][1..] == [];
    assert Spell([]) == [];
    assert ((if item.blank then " " else "") + item.word.text) + [] == (if item.blank then " " else "") + item.word.text;
  }

  lemma SpellTwo(a: Spaced, b: Spaced)
    ensures Spell([a, b]) == (if a.blank then " " else "") + a.word.text + Spell([b])
  {
    assert [a, b][1..] == [b];
  }

  lemma LiteralSpelling(v: Value)
    requires !v.Null?
    ensures Spell(LiteralWords(v)) == " " + SqlLiteral(v)
  {
    hide Spell, Decimal, Quote;
    var ws := LiteralWords(v);
    if v.Int? && v.i < 0 {
      SpellTwo(ws[0], ws[1]);
      SpellOne(ws[1]);
      assert "" + Decimal(0 - v.i) == Decimal(0 - v.i);
      assert (" " + "-") + Decimal(0 - v.i) == " " + ("-" + Decimal(0 - v.i));
    } else {
      SpellOne(ws[0]);
    }
  }

  lemma QuerySpelling(v: Value)
    requires !v.Null?
    ensures Spell(QueryWords(v)) == "select " + SqlLiteral(v)
  {
    hide SqlLiteral, LiteralWords;
    LiteralSpelling(v);
    assert QueryWords(v)[1..] == LiteralWords(v);
    assert "" + "select" + (" " + SqlLiteral(v)) == "select " + SqlLiteral(v);
  }

  lemma OneWord(w: Lexeme)
    requires IsWordOf(w)
    ensures Spellable([Spaced(true, w)]) && Words([Spaced(true, w)]) == [w]
  {
    hide IsWordOf, CanFollow;
    WordIsNotEmpty(w);
    BlankCanFollow(w.text);
    assert [Spaced(true, w)][1..] == [];
    assert Words([]) == [] && [w] + [] == [w];
  }

  // Two words without a blank between them.
  lemma TwoWords(a: Lexeme, b: Lexeme)
    requires IsWordOf(a) && IsWordOf(b) && a.text != [] && b.text != [] && CanFollow(a.text, b.text[0])
    ensures var ws := [Spaced(true, a), Spaced(false, b)]; Spellable(ws) && Words(ws) == [a, b]
  {
    hide IsWordOf, CanFollow, Spell;
    var first, second := Spaced(true, a), Spaced(false, b);
    assert [first, second][1..] == [second] && [second][1..] == [];
    SpellCons([]);
    BlankCanFollow(b.text);
    assert Spellable([second]);
    SpellOne(second);
    assert CharAt(Spell([second]), 0) == b.text[0];
    assert Words([]) == [] && Words([second]) == [b] + [];
  }

  lemma SignedWords(i: int64)
    requires i < 0
    ensures var ws := LiteralWords(Int(i)); Spellable(ws) && Words(ws) == [Fixed(MinusSign), Lexeme(IntegerToken, Decimal(0 - i))]
  {
    hide IsWordOf, Decimal, CanFollow, Spellable, Words;
    var digits := Decimal(0 - i);
    DecimalReadsBack(0 - i);
    DigitsAreWord(digits);
    OperatorIsWord(MinusSign);
    WordIsNotEmpty(Lexeme(IntegerToken, digits));
    assert IsDigit(digits[0]);
    MinusFollow(digits[0]);
    TwoWords(Fixed(MinusSign), Lexeme(IntegerToken, digits));
  }

  lemma MinusFollow(next: ByteChar)
    requires next != '-'
    ensures CanFollow(Fixed(MinusSign).text, next)
  {
  }

  lemma LiteralIsSpellable(v: Value)
    requires !v.Null?
    ensures Spellable(LiteralWords(v)) && Words(LiteralWords(v)) == PrintBody(LiteralExpr(v))
  {
    hide IsWordOf, Decimal, Quote, Spell;
    match v
    case Int(i) =>
      if i >= 0 {
        DecimalReadsBack(i);
        DigitsAreWord(Decimal(i));
        OneWord(Lexeme(IntegerToken, Decimal(i)));
      } else {
        SignedWords(i);
        if i == INT64_MIN {
          MinMagnitudeValue();
        } else {
          NegativePrints(i);
        }
      }
    case Bool(b) =>
      KeywordIsWord(if b then True else False);
      OneWord(Fixed(if b then True else False));
    case Str(s) =>
      QuotedIsWord(s);
      OneWord(Lexeme(StringToken, Quote(s)));
  }

  lemma NegativePrints(i: int64)
    requires INT64_MIN < i < 0
    ensures PrintBody(UnaryExpr(Minus, IntegerLiteral(0 - i))) == [Fixed(MinusSign), Lexeme(IntegerToken, Decimal(0 - i))]
  {
    hide Decimal;
    var magnitude: int64 := 0 - i;
    assert PrintOperand(IntegerLiteral(magnitude), PREFIX_LEVEL) == PrintBody(IntegerLiteral(magnitude)) == [Lexeme(IntegerToken, Decimal(magnitude))];
  }

  lemma SelectFollow()
    ensures CanFollow(Fixed(Select).text, ' ')
  {
  }

  lemma LiteralIsPrintable(v: Value)
    requires !v.Null?
    ensures Printable(SelectLiteral(v))
  {
    assert Producible(LiteralExpr(v));
    forall p | p in SelectLiteral(v).projections ensures Producible(p.expression) {
      assert p == SelectProjection(LiteralExpr(v), []);
    }
  }

  lemma QueryIsSpellable(v: Value)
    requires !v.Null?
    ensures Printable(SelectLiteral(v)) && Spellable(QueryWords(v)) && Words(QueryWords(v)) == PrintStatement(SelectLiteral(v))
  {
    hide IsWordOf, PrintBody, Spell, LiteralWords, CanFollow, Spelling;
    LiteralIsPrintable(v);
    LiteralIsSpellable(v);
    KeywordIsWord(Select);
    LiteralSpelling(v);
    SelectFollow();
    assert QueryWords(v)[1..] == LiteralWords(v);
    var s := SelectLiteral(v);
    var body := PrintBody(LiteralExpr(v));
    assert PrintProjections(s.projections) == body by { assert body + [] == body; }
    assert PrintStatement(s) == [Fixed(Select)] + body by { assert body + ([] + []) == body; }
  }

  lemma LiteralParses(v: Value)
    requires !v.Null?
    ensures ParseSql("select " + SqlLiteral(v)) == Ok(SelectLiteral(v))
  {
    hide Spell, Spellable, TokenizeText, ParseStatement, PrintStatement, SelectLiteral, SqlLiteral, QueryWords;
    QuerySpelling(v);
    QueryIsSpellable(v);
    SpelledTextLexesBack(QueryWords(v));
    StatementParsesBack(SelectLiteral(v), false);
  }

  // ---------------------------------------------------------------- binding and evaluation

  function BoundLiteral(v: Value): BoundExpr
    requires !v.Null?
  {
    if v.Int? && INT64_MIN < v.i < 0 then Unary(Integer, Minus, Literal(Integer, Int(0 - v.i))) else Literal(ValueTypeOf(v), v)
  }

  lemma LiteralBinds(v: Value, found: Result<TableInfo>)
    requires !v.Null?
    ensures BindSelect(SelectLiteral(v), found) == Ok(BoundSelect([BoundLiteral(v)], [[]], NO_TABLE, None))
  {
    var p := SelectProjection(LiteralExpr(v), []);
    assert BindExpression(LiteralExpr(v), None) == Ok(BoundLiteral(v));
    assert [p][1..] == [] && BindProjections([], None) == Ok(Projected([], []));
    var names: seq<Text> := [[]];
    assert [BoundLiteral(v)] + [] == [BoundLiteral(v)] && names + [] == names;
  }

  lemma LiteralAnswer(v: Value)
    requires !v.Null?
    ensures Answer(BoundSelect([BoundLiteral(v)], [[]], NO_TABLE, None), [[]]) == Ok(QueryResult(["expr1"], [[v]]))
  {
    hide Decimal;
    var e := BoundLiteral(v);
    var ctx := RowContext(0, []);
    assert Evaluate(e, ctx) == Ok(v);
    assert [e][1..] == [] && EvaluateAll([], ctx) == Ok([]) && [v] + [] == [v];
    assert EvaluateAll([e], ctx) == Ok([v]);
    var rows: seq<Row> := [[]];
    assert rows[1..] == [] && ProjectRows([e], 0, []) == Ok([]) && [[v]] + [] == [[v]];
    assert ProjectRows([e], 0, rows) == Ok([[v]]);
    FirstName();
    assert OutputNames([e], [[]]) == ["expr1"];
  }

  lemma FirstName()
    ensures "expr" + Decimal(1) == "expr1"
  {
    assert Decimal(1) == "1";
  }

  function LiteralQuery(v: Value): Text
    requires !v.Null?
  {
    "select " + SqlLiteral(v)
  }

  // One row of one column, under the name made up for it.
  function LiteralReply(v: Value): QueryResult {
    QueryResult(["expr1"], [[v]])
  }

  // For every integer including the minimum, every boolean and every string: its SQL spelling,
  // selected in any active transaction on any reachable database, evaluates back to it.
  lemma LiteralsRoundTrip(db: DatabaseState, v: Value, tx: Transaction)
    requires Linked(db) && !v.Null? && tx.state == Active
    ensures ExecuteSql(db, LiteralQuery(v), tx) == (db, Ok(LiteralReply(v)))
  {
    hide Linked, Abstraction, ParseSql, BindSelect, Answer, SqlLiteral, BoundLiteral, ExecuteStatement;
    LiteralParses(v);
    var s := SelectLiteral(v);
    LiteralBinds(v, NamedTable(db.catalog, s));
    var rows := SelectOutcome(db, s, tx);
    LiteralAnswer(v);
  }
}
