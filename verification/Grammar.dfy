/**
  The other half of what the parser promises: it accepts nothing but spellings of the tree it
  returns. A token list yields a tree when every one of its tokens is a part of the tree, in
  order, or one of a pair of parentheses; and only token types, names, digits and quoted texts
  matter.
 */
module Grammar {
  import opened Common
  import opened Lexer
  import opened LexerTiling
  import opened Expressions
  import opened Parser
  import opened Printer

  // ---------------------------------------------------------------- spellings of expressions

  // part.part.part
  ghost predicate IsDotted(ts: seq<Lexeme>, from: nat, end: nat)
    requires end <= |ts|
  {
    && from < end && (end - from) % 2 == 1
    && forall i :: from <= i < end ==> ts[i].ty == if (i - from) % 2 == 0 then Identifier else Dot
  }

  ghost function DottedName(ts: seq<Lexeme>, from: nat, end: nat): Text
    requires from < end <= |ts|
    decreases end
  {
    if end <= from + 2 then ts[from].text else DottedName(ts, from, end - 2) + "." + ts[end - 1].text
  }

  function SignType(op: UnaryOperator): TokenType {
    match op
    case Plus => PlusSign
    case Minus => MinusSign
    case Not => NotKeyword
  }

  // A tree of one token, the minimum integer with its sign, or a dotted name.
  ghost predicate AtomYields(ts: seq<Lexeme>, from: nat, end: nat, e: Expr)
    requires from < end <= |ts|
  {
    var t := ts[from];
    match e
    case IntegerLiteral(i) =>
      || (end == from + 1 && t.ty == IntegerToken && IntegerValue(t.text) == Some(i))
      || (end == from + 2 && t.ty == MinusSign && ts[from + 1] == Lexeme(IntegerToken, "9223372036854775808") && i == INT64_MIN)
    case StringLiteral(s) => end == from + 1 && t.ty == StringToken && UnescapeSqlString(t.text) == Some(s)
    case BooleanLiteral(b) => end == from + 1 && t.ty == if b then True else False
    case NullLiteral => end == from + 1 && t.ty == NullKeyword
    case StarExpr => end == from + 1 && t.ty == StarSign
    case ColumnRef(name) => IsDotted(ts, from, end) && name == DottedName(ts, from, end)
    case _ => false
  }

  ghost predicate Yields(ts: seq<Lexeme>, from: nat, end: nat, e: Expr)
    requires from <= end <= |ts|
    decreases end - from
  {
    from < end &&
    (|| (from + 2 <= end && ts[from].ty == LeftParen && ts[end - 1].ty == RightParen && Yields(ts, from + 1, end - 1, e))
     || AtomYields(ts, from, end, e)
     || (e.UnaryExpr? && ts[from].ty == SignType(e.op) && Yields(ts, from + 1, end, e.operand))
     || (e.BinaryExpr? && exists mid :: && from < mid < end && ts[mid].ty == OperatorType(e.bop)
                                        && Yields(ts, from, mid, e.left) && Yields(ts, mid + 1, end, e.right)))
  }

  // ---------------------------------------------------------------- the parser is sound

  lemma {:induction false} DottedSound(ts: seq<Lexeme>, from: nat, name: Text, pos: nat)
    requires Terminated(ts) && from < pos < |ts| && IsDotted(ts, from, pos) && name == DottedName(ts, from, pos)
    requires ParseDotted(ts, name, pos).Ok?
    ensures var (whole, next) := ParseDotted(ts, name, pos).value; IsDotted(ts, from, next) && whole == DottedName(ts, from, next)
    decreases |ts| - pos
  {
    if ts[pos].ty == Dot {
      DottedSound(ts, from, name + "." + ts[pos + 1].text, pos + 2);
    }
  }

  lemma AtomSound(ts: seq<Lexeme>, pos: nat)
    requires Terminated(ts) && pos < |ts| && ts[pos].ty != LeftParen && ParsePrimary(ts, pos).Ok?
    ensures var (e, next) := ParsePrimary(ts, pos).value; AtomYields(ts, pos, next, e)
  {
    hide IntegerValue, UnescapeSqlString, ParseDotted;
    if ts[pos].ty == Identifier {
      DottedSound(ts, pos, ts[pos].text, pos + 1);
    }
  }

  lemma AtomIsYield(ts: seq<Lexeme>, from: nat, end: nat, e: Expr)
    requires from < end <= |ts| && AtomYields(ts, from, end, e)
    ensures Yields(ts, from, end, e)
  {
    hide AtomYields;
  }

  lemma ParenYields(ts: seq<Lexeme>, from: nat, end: nat, e: Expr)
    requires from + 2 <= end <= |ts| && ts[from].ty == LeftParen && ts[end - 1].ty == RightParen && Yields(ts, from + 1, end - 1, e)
    ensures Yields(ts, from, end, e)
  {
    hide AtomYields;
  }

  lemma {:induction false} PrimarySound(ts: seq<Lexeme>, pos: nat)
    requires Terminated(ts) && pos < |ts| && ParsePrimary(ts, pos).Ok?
    ensures var (e, next) := ParsePrimary(ts, pos).value; Yields(ts, pos, next, e)
    decreases |ts| - pos, 0
  {
    hide IntegerValue, UnescapeSqlString, ParseDotted, Yields, AtomYields;
    var (e, next) := ParsePrimary(ts, pos).value;
    if ts[pos].ty == LeftParen {
      ExprSound(ts, pos + 1, 0);
      ParenYields(ts, pos, next, e);
    } else {
      AtomSound(ts, pos);
      AtomIsYield(ts, pos, next, e);
    }
  }

  lemma {:induction false} PrefixSound(ts: seq<Lexeme>, pos: nat)
    requires Terminated(ts) && pos < |ts| && ParsePrefix(ts, pos).Ok?
    ensures var (e, next) := ParsePrefix(ts, pos).value; Yields(ts, pos, next, e)
    decreases |ts| - pos, 1
  {
    hide ParsePrimary;
    if ts[pos].ty == MinusSign && ts[pos + 1] == Lexeme(IntegerToken, MIN_MAGNITUDE) {
    } else if ts[pos].ty == PlusSign || ts[pos].ty == MinusSign {
      PrefixSound(ts, pos + 1);
    } else {
      PrimarySound(ts, pos);
    }
  }

  lemma OperatorTypeOf(ty: TokenType)
    requires BinaryPrecedence(ty) >= 0
    ensures OperatorType(TokenToBinaryOperator(ty)) == ty
  {
  }

  lemma {:induction false} OperatorsSound(ts: seq<Lexeme>, from: nat, left: Expr, pos: nat, min: nat)
    requires Terminated(ts) && from < pos < |ts| && Yields(ts, from, pos, left) && ParseOperators(ts, left, pos, min).Ok?
    ensures var (e, next) := ParseOperators(ts, left, pos, min).value; Yields(ts, from, next, e)
    decreases |ts| - pos, 0
  {
    hide ParseExpr;
    var precedence := BinaryPrecedence(ts[pos].ty);
    if precedence >= min {
      ExprSound(ts, pos + 1, precedence + 1);
      var (right, next) := ParseExpr(ts, pos + 1, precedence + 1).value;
      OperatorTypeOf(ts[pos].ty);
      var e := BinaryExpr(left, TokenToBinaryOperator(ts[pos].ty), right);
      assert Yields(ts, from, next, e) by { JoinYields(ts, from, pos, next, e); }
      OperatorsSound(ts, from, e, next, min);
    }
  }

  lemma JoinYields(ts: seq<Lexeme>, from: nat, mid: nat, end: nat, e: Expr)
    requires from < mid < end <= |ts| && e.BinaryExpr? && ts[mid].ty == OperatorType(e.bop)
    requires Yields(ts, from, mid, e.left) && Yields(ts, mid + 1, end, e.right)
    ensures Yields(ts, from, end, e)
  {
  }

  // What the parser consumed is a spelling of the tree it returns.
  lemma {:induction false} ExprSound(ts: seq<Lexeme>, pos: nat, min: nat)
    requires Terminated(ts) && pos < |ts| && ParseExpr(ts, pos, min).Ok?
    ensures var (e, next) := ParseExpr(ts, pos, min).value; Yields(ts, pos, next, e)
    decreases |ts| - pos, 2
  {
    hide ParsePrefix, ParseOperators;
    if min <= NOT_PRECEDENCE && ts[pos].ty == NotKeyword {
      ExprSound(ts, pos + 1, NOT_PRECEDENCE);
    } else {
      PrefixSound(ts, pos);
      var (left, next) := ParsePrefix(ts, pos).value;
      OperatorsSound(ts, pos, left, next, min);
    }
  }

  // ---------------------------------------------------------------- spellings of statements

  ghost predicate ProjectionYields(ts: seq<Lexeme>, from: nat, end: nat, p: SelectProjection)
    requires from <= end <= |ts|
  {
    || (p.alias == [] && Yields(ts, from, end, p.expression))
    || (from + 2 <= end && Yields(ts, from, end - 2, p.expression) && ts[end - 2].ty == As && ts[end - 1] == Lexeme(Identifier, p.alias))
  }

  // One or more projections with commas between.
  ghost predicate ProjectionsYield(ts: seq<Lexeme>, from: nat, end: nat, ps: seq<SelectProjection>)
    requires from <= end <= |ts|
    decreases |ps|
  {
    ps != [] &&
    if |ps| == 1 then ProjectionYields(ts, from, end, ps[0])
    else exists mid :: && from <= mid < end && ProjectionYields(ts, from, mid, ps[0]) && ts[mid].ty == Comma
                       && ProjectionsYield(ts, mid + 1, end, ps[1..])
  }

  // Expressions, each behind a comma.
  ghost predicate MoreYield(ts: seq<Lexeme>, from: nat, end: nat, es: seq<Expr>)
    requires from <= end <= |ts|
    decreases |es|
  {
    if es == [] then from == end
    else
      && from < end && ts[from].ty == Comma
      && exists mid :: from < mid <= end && Yields(ts, from + 1, mid, es[0]) && MoreYield(ts, mid, end, es[1..])
  }

  ghost predicate ColumnsYield(ts: seq<Lexeme>, from: nat, end: nat, cs: seq<ColumnDefinition>)
    requires from <= end <= |ts|
    decreases |cs|
  {
    && cs != [] && from + 2 <= end && ts[from] == Lexeme(Identifier, cs[0].name) && ParseTypeName(ts[from + 1]) == Some(cs[0].ty)
    && if |cs| == 1 then end == from + 2 else from + 3 <= end && ts[from + 2].ty == Comma && ColumnsYield(ts, from + 3, end, cs[1..])
  }

  // Nothing, or FROM and the name.
  ghost predicate FromYields(ts: seq<Lexeme>, from: nat, end: nat, table: Text)
    requires from <= end <= |ts|
  {
    || (end == from && table == [])
    || (end == from + 2 && ts[from].ty == From && ts[from + 1] == Lexeme(Identifier, table))
  }

  // Nothing, or WHERE and the condition.
  ghost predicate WhereYields(ts: seq<Lexeme>, from: nat, end: nat, where: Option<Expr>)
    requires from <= end <= |ts|
  {
    if where.None? then end == from else from < end && ts[from].ty == Where && Yields(ts, from + 1, end, where.value)
  }

  predicate TypesAt(ts: seq<Lexeme>, from: nat, types: seq<TokenType>) {
    from + |types| <= |ts| && forall i :: 0 <= i < |types| ==> ts[from + i].ty == types[i]
  }

  // The first `end` tokens are the statement.
  ghost predicate StatementYields(ts: seq<Lexeme>, end: nat, s: Statement)
    requires end <= |ts|
  {
    match s
    case SelectStatement(projections, table, where) =>
      && TypesAt(ts, 0, [Select])
      && exists a, b :: && 1 <= a <= b <= end && ProjectionsYield(ts, 1, a, projections)
                        && FromYields(ts, a, b, table) && WhereYields(ts, b, end, where)
    case InsertStatement(table, values) =>
      && TypesAt(ts, 0, [Insert, Into, Identifier, Values, LeftParen]) && ts[2].text == table && values != []
      && exists a :: && 5 <= a < end && Yields(ts, 5, a, values[0]) && MoreYield(ts, a, end - 1, values[1..])
                     && ts[end - 1].ty == RightParen
    case CreateTableStatement(table, columns) =>
      && TypesAt(ts, 0, [Create, Table, Identifier, LeftParen]) && ts[2].text == table
      && 5 <= end && ColumnsYield(ts, 4, end - 1, columns) && ts[end - 1].ty == RightParen
  }

  lemma ProjectionSound(ts: seq<Lexeme>, pos: nat)
    requires Terminated(ts) && pos < |ts| && ParseProjection(ts, pos).Ok?
    ensures var (p, next) := ParseProjection(ts, pos).value; ProjectionYields(ts, pos, next, p)
  {
    hide ParseExpr, Yields;
    ExprSound(ts, pos, 0);
  }

  lemma {:induction false} ProjectionsSound(ts: seq<Lexeme>, done: seq<SelectProjection>, pos: nat) returns (ps: seq<SelectProjection>)
    requires Terminated(ts) && pos < |ts| && ParseProjections(ts, done, pos).Ok?
    ensures var (all, next) := ParseProjections(ts, done, pos).value; all == done + ps && ProjectionsYield(ts, pos, next, ps)
    decreases |ts| - pos
  {
    hide ParseProjection, ProjectionYields;
    ProjectionSound(ts, pos);
    var (p, next) := ParseProjection(ts, pos).value;
    if ts[next].ty == Comma {
      var rest := ProjectionsSound(ts, done + [p], next + 1);
      ps := [p] + rest;
      assert ps[1..] == rest;
      assert done + ps == (done + [p]) + rest;
    } else {
      ps := [p];
    }
  }

  lemma {:induction false} MoreSound(ts: seq<Lexeme>, done: seq<Expr>, pos: nat) returns (es: seq<Expr>)
    requires Terminated(ts) && pos < |ts| && ParseMoreExpressions(ts, done, pos).Ok?
    ensures var (all, next) := ParseMoreExpressions(ts, done, pos).value; all == done + es && MoreYield(ts, pos, next, es)
    decreases |ts| - pos
  {
    hide ParseExpr, Yields;
    if ts[pos].ty == Comma {
      ExprSound(ts, pos + 1, 0);
      var (e, next) := ParseExpr(ts, pos + 1, 0).value;
      var rest := MoreSound(ts, done + [e], next);
      es := [e] + rest;
      assert es[1..] == rest;
      assert done + es == (done + [e]) + rest;
    } else {
      es := [];
      assert done + es == done;
    }
  }

  lemma {:induction false} ColumnsSound(ts: seq<Lexeme>, done: seq<ColumnDefinition>, pos: nat) returns (cs: seq<ColumnDefinition>)
    requires Terminated(ts) && pos < |ts| && ParseColumns(ts, done, pos).Ok?
    ensures var (all, next) := ParseColumns(ts, done, pos).value; all == done + cs && ColumnsYield(ts, pos, next, cs)
    decreases |ts| - pos
  {
    hide ParseTypeName;
    var c := ColumnDefinition(ts[pos].text, ParseTypeName(ts[pos + 1]).value);
    if ts[pos + 2].ty == Comma {
      var rest := ColumnsSound(ts, done + [c], pos + 3);
      cs := [c] + rest;
      assert cs[1..] == rest;
      assert done + cs == (done + [c]) + rest;
    } else {
      cs := [c];
    }
  }

  lemma SelectSound(ts: seq<Lexeme>)
    requires Terminated(ts) && ts[0].ty == Select && ParseByKeyword(ts).Ok?
    ensures var (s, end) := ParseByKeyword(ts).value; StatementYields(ts, end, s)
  {
    hide ParseProjections, ProjectionsYield, ParseExpr, Yields;
    var ps := ProjectionsSound(ts, [], 1);
    assert [] + ps == ps;
    var (projections, a) := ParseProjections(ts, [], 1).value;
    var (table, b) := ParseFrom(ts, a).value;
    if ts[b].ty == Where {
      ExprSound(ts, b + 1, 0);
    }
    var (where, end) := ParseWhere(ts, b).value;
    assert FromYields(ts, a, b, table) && WhereYields(ts, b, end, where);
  }

  lemma InsertSound(ts: seq<Lexeme>)
    requires Terminated(ts) && ts[0].ty == Insert && ParseByKeyword(ts).Ok?
    ensures var (s, end) := ParseByKeyword(ts).value; StatementYields(ts, end, s)
  {
    hide ParseExpr, ParseMoreExpressions, Yields, MoreYield;
    ExprSound(ts, 5, 0);
    var (e, a) := ParseExpr(ts, 5, 0).value;
    var rest := MoreSound(ts, [e], a);
    var (s, end) := ParseByKeyword(ts).value;
    assert s.values == [e] + rest && s.values[1..] == rest;
    assert Yields(ts, 5, a, s.values[0]) && MoreYield(ts, a, end - 1, s.values[1..]);
  }

  lemma CreateSound(ts: seq<Lexeme>)
    requires Terminated(ts) && ts[0].ty == Create && ParseByKeyword(ts).Ok?
    ensures var (s, end) := ParseByKeyword(ts).value; StatementYields(ts, end, s)
  {
    hide ParseColumns, ColumnsYield;
    var cs := ColumnsSound(ts, [], 4);
    assert [] + cs == cs;
  }

  // A statement is accepted only from its own tokens, an optional semicolon and the end.
  lemma AcceptsOnlySpellings(ts: seq<Lexeme>)
    requires Terminated(ts) && ParseStatement(ts).Ok?
    ensures exists end :: && 0 < end < |ts| && StatementYields(ts, end, ParseStatement(ts).value)
                          && (ts[end].ty == EndOfFile || (ts[end].ty == Semicolon && ts[end + 1].ty == EndOfFile))
  {
    hide ParseByKeyword, StatementYields;
    KnownKeyword(ts);
    if ts[0].ty == Select {
      SelectSound(ts);
    } else if ts[0].ty == Insert {
      InsertSound(ts);
    } else {
      CreateSound(ts);
    }
    var (s, end) := ParseByKeyword(ts).value;
    assert StatementYields(ts, end, s);
  }

  lemma KnownKeyword(ts: seq<Lexeme>)
    requires Terminated(ts) && ParseByKeyword(ts).Ok?
    ensures ts[0].ty == Select || ts[0].ty == Insert || ts[0].ty == Create
  {
  }

  // ---------------------------------------------------------------- the parser is complete

  // A spelling that needs no more parentheses in a place of the given level, and may have any
  // number of redundant ones: level 0 is a whole expression, p and p + 1 are the operands of an
  // operator of precedence p, 7 is the operand of a sign. A bare NOT is a whole expression or
  // the operand of another NOT.
  ghost predicate Spells(ts: seq<Lexeme>, from: nat, end: nat, e: Expr, level: nat)
    requires from <= end <= |ts|
    decreases end - from
  {
    from < end &&
    (|| (from + 2 <= end && ts[from].ty == LeftParen && ts[end - 1].ty == RightParen && Spells(ts, from + 1, end - 1, e, 0))
     || AtomYields(ts, from, end, e)
     || (e.UnaryExpr? && e.op != Not && ts[from].ty == SignType(e.op) && Spells(ts, from + 1, end, e.operand, PREFIX_LEVEL))
     || BareNot(ts, from, end, e, level)
     || (e.BinaryExpr? && Precedence(e.bop) >= level
         && exists mid :: && from < mid < end && ts[mid].ty == OperatorType(e.bop)
                          && Spells(ts, from, mid, e.left, Precedence(e.bop))
                          && Spells(ts, mid + 1, end, e.right, Precedence(e.bop) + 1)))
  }

  ghost predicate BareNot(ts: seq<Lexeme>, from: nat, end: nat, e: Expr, level: nat)
    requires from < end <= |ts|
    decreases end - from, 0
  {
    && level == 0 && IsNot(e) && ts[from].ty == NotKeyword
    && (Spells(ts, from + 1, end, e.operand, NOT_PRECEDENCE) || (IsNot(e.operand) && Spells(ts, from + 1, end, e.operand, 0)))
  }

  // Parentheses, signs and atoms: what ParsePrefix takes in one piece.
  ghost predicate OnePiece(ts: seq<Lexeme>, from: nat, end: nat, e: Expr)
    requires from <= end <= |ts|
  {
    from < end &&
    (|| (from + 2 <= end && ts[from].ty == LeftParen && ts[end - 1].ty == RightParen && Spells(ts, from + 1, end - 1, e, 0))
     || AtomYields(ts, from, end, e)
     || (e.UnaryExpr? && e.op != Not && ts[from].ty == SignType(e.op) && Spells(ts, from + 1, end, e.operand, PREFIX_LEVEL)))
  }

  lemma SpellsCases(ts: seq<Lexeme>, from: nat, end: nat, e: Expr, level: nat)
    requires from <= end <= |ts| && Spells(ts, from, end, e, level)
    ensures from < end
    ensures || OnePiece(ts, from, end, e)
            || BareNot(ts, from, end, e, level)
            || (e.BinaryExpr? && Precedence(e.bop) >= level)
    ensures level >= PREFIX_LEVEL ==> OnePiece(ts, from, end, e)
  {
    hide AtomYields, BareNot;
    if level > 0 {
      NoBareNot(ts, from, end, e, level);
    }
  }

  lemma {:induction false} DottedComplete(ts: seq<Lexeme>, from: nat, pos: nat, end: nat)
    requires Terminated(ts) && from < pos <= end < |ts| && (pos - from) % 2 == 1
    requires IsDotted(ts, from, end) && ts[end].ty != Dot
    ensures ParseDotted(ts, DottedName(ts, from, pos), pos) == Ok((DottedName(ts, from, end), end))
    decreases end - pos
  {
    if pos < end {
      DottedComplete(ts, from, pos + 2, end);
    }
  }

  lemma AtomComplete(ts: seq<Lexeme>, pos: nat, end: nat, e: Expr)
    requires Terminated(ts) && pos < end < |ts| && AtomYields(ts, pos, end, e) && ts[end].ty != Dot
    ensures ParsePrefix(ts, pos) == Ok((e, end))
  {
    hide IntegerValue, UnescapeSqlString, ParseDotted;
    if e.ColumnRef? {
      DottedComplete(ts, pos, pos + 1, end);
    }
  }

  lemma {:induction false} PieceComplete(ts: seq<Lexeme>, pos: nat, end: nat, e: Expr)
    requires Terminated(ts) && pos < end < |ts| && OnePiece(ts, pos, end, e) && ts[end].ty != Dot
    ensures ParsePrefix(ts, pos) == Ok((e, end))
    decreases end - pos, 0
  {
    hide Spells, AtomYields, ParsePrefix;
    if AtomYields(ts, pos, end, e) {
      AtomComplete(ts, pos, end, e);
    } else if ts[pos].ty == LeftParen {
      WholeComplete(ts, pos + 1, end - 1, e);
      ParenStep(ts, pos, e, end - 1);
    } else {
      SpellsCases(ts, pos + 1, end, e.operand, PREFIX_LEVEL);
      PieceComplete(ts, pos + 1, end, e.operand);
      NoMinMagnitude(ts, pos + 1, end, e.operand);
      SignStep(ts, pos, e.op, e.operand, end);
    }
  }

  // No piece begins with the bare magnitude of the minimum.
  lemma NoMinMagnitude(ts: seq<Lexeme>, from: nat, end: nat, e: Expr)
    requires from < end <= |ts| && OnePiece(ts, from, end, e)
    ensures ts[from] != Lexeme(IntegerToken, MIN_MAGNITUDE)
  {
    hide Spells;
    MinMagnitudeIsNoInteger();
  }

  lemma MinMagnitudeIsNoInteger()
    ensures IntegerValue(MIN_MAGNITUDE).None?
  {
    MinMagnitudeValue();
  }

  // Parsed from any lower level, an operand is built and the operator loop goes on with it.
  lemma {:induction false} OperandComplete(ts: seq<Lexeme>, pos: nat, end: nat, e: Expr, level: nat, m: nat)
    requires Terminated(ts) && pos < end < |ts| && Spells(ts, pos, end, e, level) && m <= level
    requires !BareNot(ts, pos, end, e, level)
    requires BinaryPrecedence(ts[end].ty) <= level && ts[end].ty != Dot
    ensures ParseExpr(ts, pos, m) == ParseOperators(ts, e, end, m)
    decreases end - pos, 1
  {
    hide Spells, OnePiece, BareNot, AtomYields, ParsePrefix, ParseExpr, ParseOperators, Precedence, OperatorType, BinaryPrecedence,
         TokenToBinaryOperator;
    SpellsCases(ts, pos, end, e, level);
    if OnePiece(ts, pos, end, e) {
      PieceComplete(ts, pos, end, e);
      ExprFromPrefix(ts, pos, m);
    } else {
      var mid := BinaryParts(ts, pos, end, e, level);
      var p := Precedence(e.bop);
      NoBareNot(ts, pos, mid, e.left, p);
      NoBareNot(ts, mid + 1, end, e.right, p + 1);
      OperatorIsNoDot(e.bop);
      SpellsCases(ts, pos, mid, e.left, p);
      SpellsCases(ts, mid + 1, end, e.right, p + 1);
      OperandComplete(ts, pos, mid, e.left, p, m);
      OperandComplete(ts, mid + 1, end, e.right, p + 1, p + 1);
      LoopStops(ts, e.right, end, p + 1);
      LoopTakes(ts, e.left, mid, m, e.right, end);
    }
  }

  lemma NoBareNot(ts: seq<Lexeme>, from: nat, end: nat, e: Expr, level: nat)
    requires from < end <= |ts| && level > 0
    ensures !BareNot(ts, from, end, e, level)
  {
  }

  lemma BinaryParts(ts: seq<Lexeme>, from: nat, end: nat, e: Expr, level: nat) returns (mid: nat)
    requires from < end <= |ts| && Spells(ts, from, end, e, level) && !OnePiece(ts, from, end, e) && !BareNot(ts, from, end, e, level)
    ensures e.BinaryExpr? && Precedence(e.bop) >= level && from < mid && mid + 1 < end && ts[mid].ty == OperatorType(e.bop)
    ensures Spells(ts, from, mid, e.left, Precedence(e.bop)) && Spells(ts, mid + 1, end, e.right, Precedence(e.bop) + 1)
  {
    hide AtomYields, BareNot, Precedence, OperatorType;
    mid :| && from < mid < end && ts[mid].ty == OperatorType(e.bop)
           && Spells(ts, from, mid, e.left, Precedence(e.bop)) && Spells(ts, mid + 1, end, e.right, Precedence(e.bop) + 1);
  }

  lemma {:induction false} NotComplete(ts: seq<Lexeme>, pos: nat, end: nat, e: Expr, m: nat)
    requires Terminated(ts) && pos < end < |ts| && BareNot(ts, pos, end, e, 0) && m <= NOT_PRECEDENCE
    requires BinaryPrecedence(ts[end].ty) < NOT_PRECEDENCE && ts[end].ty != Dot
    ensures ParseExpr(ts, pos, m) == Ok((e, end))
    decreases end - pos, 0
  {
    hide Spells, ParsePrefix, ParseOperators, BinaryPrecedence;
    var x := e.operand;
    if Spells(ts, pos + 1, end, x, NOT_PRECEDENCE) {
      SpellsCases(ts, pos + 1, end, x, NOT_PRECEDENCE);
      OperandComplete(ts, pos + 1, end, x, NOT_PRECEDENCE, NOT_PRECEDENCE);
      LoopStops(ts, x, end, NOT_PRECEDENCE);
    } else {
      SpellsCases(ts, pos + 1, end, x, 0);
      if BareNot(ts, pos + 1, end, x, 0) {
        NotComplete(ts, pos + 1, end, x, NOT_PRECEDENCE);
      } else {
        assert OnePiece(ts, pos + 1, end, x);
        PieceComplete(ts, pos + 1, end, x);
        ExprFromPrefix(ts, pos + 1, NOT_PRECEDENCE);
        LoopStops(ts, x, end, NOT_PRECEDENCE);
      }
    }
  }

  // Every spelling of an expression, redundant parentheses and all, parses to it.
  lemma {:induction false} WholeComplete(ts: seq<Lexeme>, pos: nat, end: nat, e: Expr)
    requires Terminated(ts) && pos <= end < |ts| && Spells(ts, pos, end, e, 0) && EndsExpression(ts[end])
    ensures ParseExpr(ts, pos, 0) == Ok((e, end)) && pos < end
    decreases end - pos, 2
  {
    hide Spells, BareNot, ParsePrefix, ParseExpr, ParseOperators;
    SpellsCases(ts, pos, end, e, 0);
    if BareNot(ts, pos, end, e, 0) {
      NotComplete(ts, pos, end, e, 0);
    } else {
      OperandComplete(ts, pos, end, e, 0, 0);
      LoopStops(ts, e, end, 0);
    }
  }

  // ---------------------------------------------------------------- what does not matter

  predicate Worded(ty: TokenType) {
    ty == Identifier || ty == IntegerToken || ty == StringToken
  }

  // The same types, and the same names, digits and quoted texts.
  ghost predicate Alike(ts: seq<Lexeme>, us: seq<Lexeme>) {
    |us| == |ts| && forall i :: 0 <= i < |ts| ==> us[i].ty == ts[i].ty && (Worded(ts[i].ty) ==> us[i].text == ts[i].text)
  }

  lemma AlikeAt(ts: seq<Lexeme>, us: seq<Lexeme>, i: nat)
    requires Alike(ts, us)
    ensures |us| == |ts|
    ensures i < |ts| ==> us[i].ty == ts[i].ty && (Worded(ts[i].ty) ==> us[i].text == ts[i].text)
  {
  }

  lemma AlikeEnds(ts: seq<Lexeme>, us: seq<Lexeme>)
    requires Terminated(ts) && Alike(ts, us)
    ensures Terminated(us)
  {
  }

  lemma {:induction false} DottedAlike(ts: seq<Lexeme>, us: seq<Lexeme>, name: Text, pos: nat)
    requires Terminated(ts) && Alike(ts, us) && pos < |ts|
    ensures ParseDotted(us, name, pos) == ParseDotted(ts, name, pos)
    decreases |ts| - pos
  {
    if ts[pos].ty == Dot && ts[pos + 1].ty == Identifier {
      DottedAlike(ts, us, name + "." + ts[pos + 1].text, pos + 2);
    }
  }

  lemma {:induction false} PrimaryAlike(ts: seq<Lexeme>, us: seq<Lexeme>, pos: nat)
    requires Terminated(ts) && Alike(ts, us) && pos < |ts|
    ensures ParsePrimary(us, pos) == ParsePrimary(ts, pos)
    decreases |ts| - pos, 0
  {
    hide IntegerValue, UnescapeSqlString, ParseDotted, ParseExpr, Alike;
    AlikeEnds(ts, us);
    AlikeAt(ts, us, pos);
    if ts[pos].ty == LeftParen {
      ExprAlike(ts, us, pos + 1, 0);
      var r := ParseExpr(ts, pos + 1, 0);
      if r.Ok? {
        AlikeAt(ts, us, r.value.1);
      }
    } else if ts[pos].ty == Identifier {
      DottedAlike(ts, us, ts[pos].text, pos + 1);
    }
  }

  lemma {:induction false} PrefixAlike(ts: seq<Lexeme>, us: seq<Lexeme>, pos: nat)
    requires Terminated(ts) && Alike(ts, us) && pos < |ts|
    ensures ParsePrefix(us, pos) == ParsePrefix(ts, pos)
    decreases |ts| - pos, 1
  {
    hide ParsePrimary;
    if ts[pos].ty == PlusSign || ts[pos].ty == MinusSign {
      PrefixAlike(ts, us, pos + 1);
    } else {
      PrimaryAlike(ts, us, pos);
    }
  }

  lemma {:induction false} OperatorsAlike(ts: seq<Lexeme>, us: seq<Lexeme>, left: Expr, pos: nat, min: nat)
    requires Terminated(ts) && Alike(ts, us) && pos < |ts|
    ensures ParseOperators(us, left, pos, min) == ParseOperators(ts, left, pos, min)
    decreases |ts| - pos, 0
  {
    hide ParseExpr;
    var precedence := BinaryPrecedence(ts[pos].ty);
    if precedence >= min {
      ExprAlike(ts, us, pos + 1, precedence + 1);
      var r := ParseExpr(ts, pos + 1, precedence + 1);
      if r.Ok? {
        OperatorsAlike(ts, us, BinaryExpr(left, TokenToBinaryOperator(ts[pos].ty), r.value.0), r.value.1, min);
      }
    }
  }

  lemma {:induction false} ExprAlike(ts: seq<Lexeme>, us: seq<Lexeme>, pos: nat, min: nat)
    requires Terminated(ts) && Alike(ts, us) && pos < |ts|
    ensures ParseExpr(us, pos, min) == ParseExpr(ts, pos, min)
    decreases |ts| - pos, 2
  {
    hide ParsePrefix, ParseOperators;
    if min <= NOT_PRECEDENCE && ts[pos].ty == NotKeyword {
      ExprAlike(ts, us, pos + 1, NOT_PRECEDENCE);
    } else {
      PrefixAlike(ts, us, pos);
      var r := ParsePrefix(ts, pos);
      if r.Ok? {
        OperatorsAlike(ts, us, r.value.0, r.value.1, min);
      }
    }
  }

  lemma {:induction false} MoreAlike(ts: seq<Lexeme>, us: seq<Lexeme>, done: seq<Expr>, pos: nat)
    requires Terminated(ts) && Alike(ts, us) && pos < |ts|
    ensures ParseMoreExpressions(us, done, pos) == ParseMoreExpressions(ts, done, pos)
    decreases |ts| - pos
  {
    hide ParseExpr;
    if ts[pos].ty == Comma {
      ExprAlike(ts, us, pos + 1, 0);
      var r := ParseExpr(ts, pos + 1, 0);
      if r.Ok? {
        MoreAlike(ts, us, done + [r.value.0], r.value.1);
      }
    }
  }

  lemma ProjectionAlike(ts: seq<Lexeme>, us: seq<Lexeme>, pos: nat)
    requires Terminated(ts) && Alike(ts, us) && pos < |ts|
    ensures Terminated(us) && |us| == |ts| && ParseProjection(us, pos) == ParseProjection(ts, pos)
  {
    hide ParseExpr, Alike;
    AlikeEnds(ts, us);
    AlikeAt(ts, us, pos);
    ExprAlike(ts, us, pos, 0);
    var r := ParseExpr(ts, pos, 0);
    if r.Ok? {
      AlikeAt(ts, us, r.value.1);
      AlikeAt(ts, us, r.value.1 + 1);
    }
  }

  lemma {:induction false} ProjectionsAlike(ts: seq<Lexeme>, us: seq<Lexeme>, done: seq<SelectProjection>, pos: nat)
    requires Terminated(ts) && Alike(ts, us) && pos < |ts|
    ensures Terminated(us) && |us| == |ts| && ParseProjections(us, done, pos) == ParseProjections(ts, done, pos)
    decreases |ts| - pos
  {
    hide ParseProjection, Alike;
    ProjectionAlike(ts, us, pos);
    var r := ParseProjection(ts, pos);
    if r.Ok? {
      AlikeAt(ts, us, r.value.1);
      if ts[r.value.1].ty == Comma {
        ProjectionsAlike(ts, us, done + [r.value.0], r.value.1 + 1);
      }
    }
  }

  lemma {:induction false} ColumnsAlike(ts: seq<Lexeme>, us: seq<Lexeme>, done: seq<ColumnDefinition>, pos: nat)
    requires Terminated(ts) && Alike(ts, us) && pos < |ts|
    ensures ParseColumns(us, done, pos) == ParseColumns(ts, done, pos)
    decreases |ts| - pos
  {
    hide FoldIdentifierKey;
    if ts[pos].ty == Identifier {
      var ty := ParseTypeName(ts[pos + 1]);
      if ty.Some? && ts[pos + 2].ty == Comma {
        ColumnsAlike(ts, us, done + [ColumnDefinition(ts[pos].text, ty.value)], pos + 3);
      }
    }
  }

  lemma FromAlike(ts: seq<Lexeme>, us: seq<Lexeme>, pos: nat)
    requires Terminated(ts) && Alike(ts, us) && pos < |ts|
    ensures Terminated(us) && |us| == |ts| && ParseFrom(us, pos) == ParseFrom(ts, pos)
  {
    hide Alike;
    AlikeEnds(ts, us);
    AlikeAt(ts, us, pos);
    AlikeAt(ts, us, pos + 1);
  }

  lemma WhereAlike(ts: seq<Lexeme>, us: seq<Lexeme>, pos: nat)
    requires Terminated(ts) && Alike(ts, us) && pos < |ts|
    ensures Terminated(us) && |us| == |ts| && ParseWhere(us, pos) == ParseWhere(ts, pos)
  {
    hide Alike, ParseExpr;
    AlikeEnds(ts, us);
    AlikeAt(ts, us, pos);
    if ts[pos].ty == Where {
      ExprAlike(ts, us, pos + 1, 0);
    }
  }

  lemma SelectAlike(ts: seq<Lexeme>, us: seq<Lexeme>, pos: nat)
    requires Terminated(ts) && Alike(ts, us) && pos < |ts|
    ensures Terminated(us) && |us| == |ts| && ParseSelect(us, pos) == ParseSelect(ts, pos)
  {
    hide ParseFrom, ParseWhere, ParseProjections, Alike;
    ProjectionsAlike(ts, us, [], pos);
    var list := ParseProjections(ts, [], pos);
    if list.Ok? {
      FromAlike(ts, us, list.value.1);
      var from := ParseFrom(ts, list.value.1);
      if from.Ok? {
        WhereAlike(ts, us, from.value.1);
      }
    }
  }

  lemma TakeAlike(ts: seq<Lexeme>, us: seq<Lexeme>, pos: nat, ty: TokenType)
    requires Terminated(ts) && Alike(ts, us) && pos < |ts| && ty != EndOfFile
    ensures Terminated(us) && |us| == |ts| && Take(us, pos, ty) == Take(ts, pos, ty)
    ensures Take(ts, pos, ty).Ok? && ty == Identifier ==> us[pos].text == ts[pos].text
  {
    hide Alike;
    AlikeEnds(ts, us);
    AlikeAt(ts, us, pos);
  }

  lemma ListAlike(ts: seq<Lexeme>, us: seq<Lexeme>, pos: nat)
    requires Terminated(ts) && Alike(ts, us) && pos < |ts|
    ensures Terminated(us) && |us| == |ts| && ParseExpressionList(us, pos) == ParseExpressionList(ts, pos)
  {
    hide Alike, ParseExpr, ParseMoreExpressions;
    AlikeEnds(ts, us);
    AlikeAt(ts, us, pos);
    ExprAlike(ts, us, pos, 0);
    var r := ParseExpr(ts, pos, 0);
    if r.Ok? {
      MoreAlike(ts, us, [r.value.0], r.value.1);
    }
  }

  lemma InsertAlike(ts: seq<Lexeme>, us: seq<Lexeme>, pos: nat)
    requires Terminated(ts) && Alike(ts, us) && pos < |ts|
    ensures Terminated(us) && |us| == |ts| && ParseInsert(us, pos) == ParseInsert(ts, pos)
  {
    hide ParseExpressionList, Take, Alike;
    TakeAlike(ts, us, pos, Into);
    if Take(ts, pos, Into).Ok? {
      TakeAlike(ts, us, pos + 1, Identifier);
      if Take(ts, pos + 1, Identifier).Ok? {
        TakeAlike(ts, us, pos + 2, Values);
        if Take(ts, pos + 2, Values).Ok? {
          TakeAlike(ts, us, pos + 3, LeftParen);
          if Take(ts, pos + 3, LeftParen).Ok? {
            ListAlike(ts, us, pos + 4);
            var list := ParseExpressionList(ts, pos + 4);
            if list.Ok? {
              TakeAlike(ts, us, list.value.1, RightParen);
            }
          }
        }
      }
    }
  }

  lemma CreateAlike(ts: seq<Lexeme>, us: seq<Lexeme>, pos: nat)
    requires Terminated(ts) && Alike(ts, us) && pos < |ts|
    ensures Terminated(us) && |us| == |ts| && ParseCreateTable(us, pos) == ParseCreateTable(ts, pos)
  {
    hide ParseColumns, Take, Alike;
    TakeAlike(ts, us, pos, Table);
    if Take(ts, pos, Table).Ok? {
      TakeAlike(ts, us, pos + 1, Identifier);
      if Take(ts, pos + 1, Identifier).Ok? {
        TakeAlike(ts, us, pos + 2, LeftParen);
        if Take(ts, pos + 2, LeftParen).Ok? {
          ColumnsAlike(ts, us, [], pos + 3);
          var list := ParseColumns(ts, [], pos + 3);
          if list.Ok? {
            TakeAlike(ts, us, list.value.1, RightParen);
          }
        }
      }
    }
  }

  // Token lists that differ only in how keywords and operators are spelled parse to the same
  // statement, or fail alike.
  lemma SpellingDoesNotMatter(ts: seq<Lexeme>, us: seq<Lexeme>)
    requires Terminated(ts) && Alike(ts, us)
    ensures Terminated(us) && ParseStatement(us) == ParseStatement(ts)
  {
    hide ParseSelect, ParseInsert, ParseCreateTable;
    if |ts| > 1 {
      SelectAlike(ts, us, 1);
      InsertAlike(ts, us, 1);
      CreateAlike(ts, us, 1);
    }
  }
}
