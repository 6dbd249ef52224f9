/**
  A printer for syntax trees that parenthesises by the precedence table, and the proof that the
  parser inverts it. A NOT that is an operand of a binary operator or a sign is always
  parenthesised, because a leading NOT does not re-enter the operator loop.
 */
module Printer {
  import opened Common
  import opened Lexer
  import opened LexerTiling
  import opened Expressions
  import opened Parser

  // ---------------------------------------------------------------- tokens of a tree

  function OperatorType(op: BinaryOperator): (ty: TokenType)
    ensures BinaryPrecedence(ty) == Precedence(op) && TokenToBinaryOperator(ty) == op
  {
    match op
    case Or => OrKeyword
    case And => AndKeyword
    case Equal => EqualSign
    case NotEqual => NotEqualSign
    case Less => LessSign
    case LessEqual => LessEqualSign
    case Greater => GreaterSign
    case GreaterEqual => GreaterEqualSign
    case Add => PlusSign
    case Subtract => MinusSign
    case Multiply => StarSign
    case Divide => Slash
  }

  function Precedence(op: BinaryOperator): (p: nat)
    ensures 1 <= p <= 6
  {
    match op
    case Or => 1
    case And => 2
    case Add => 5
    case Subtract => 5
    case Multiply => 6
    case Divide => 6
    case _ => 4
  }

  // The spelling of token types that have only one.
  function Spelling(ty: TokenType): Text {
    match ty
    case Select => "select" case From => "from" case Where => "where" case Insert => "insert"
    case Into => "into" case Values => "values" case Create => "create" case Table => "table"
    case Drop => "drop" case NullKeyword => "null" case AndKeyword => "and" case OrKeyword => "or"
    case NotKeyword => "not" case As => "as" case Order => "order" case By => "by" case Limit => "limit"
    case True => "true" case False => "false"
    case PlusSign => "+" case MinusSign => "-" case StarSign => "*" case Slash => "/"
    case EqualSign => "=" case NotEqualSign => "!=" case LessSign => "<" case LessEqualSign => "<="
    case GreaterSign => ">" case GreaterEqualSign => ">="
    case LeftParen => "(" case RightParen => ")" case Comma => "," case Dot => "." case Semicolon => ";"
    case _ => ""
  }

  function Fixed(ty: TokenType): Lexeme {
    Lexeme(ty, Spelling(ty))
  }

  // Sign operands bind tighter than every binary operator.
  const PREFIX_LEVEL: nat := 7

  predicate IsNot(e: Expr) {
    e.UnaryExpr? && e.op == Not
  }

  predicate NeedsParens(e: Expr, level: nat) {
    IsNot(e) || (e.BinaryExpr? && Precedence(e.bop) < level)
  }

  function QuoteBody(s: Text): Text {
    if s == [] then []
    else if s[0] == '\'' then "''" + QuoteBody(s[1..])
    else [s[0]] + QuoteBody(s[1..])
  }

  function Quote(s: Text): Text {
    "'" + QuoteBody(s) + "'"
  }

  function FirstDot(name: Text): (k: nat)
    ensures k <= |name|
    ensures k < |name| ==> name[k] == '.'
  {
    if name == [] || name[0] == '.' then 0 else 1 + FirstDot(name[1..])
  }

  // The tokens of ".part.part".
  function DottedTail(rest: Text): seq<Lexeme>
    decreases |rest|
  {
    if rest == [] then []
    else
      var body := rest[1..];
      var k := FirstDot(body);
      [Fixed(Dot), Lexeme(Identifier, body[..k])] + DottedTail(body[k..])
  }

  function PrintColumn(name: Text): seq<Lexeme> {
    var k := FirstDot(name);
    [Lexeme(Identifier, name[..k])] + DottedTail(name[k..])
  }

  function PrintInteger(i: int64): seq<Lexeme> {
    if i >= 0 then [Lexeme(IntegerToken, Decimal(i))]
    else if i == INT64_MIN then [Fixed(MinusSign), Lexeme(IntegerToken, MIN_MAGNITUDE)]
    else [Fixed(MinusSign), Lexeme(IntegerToken, Decimal(0 - i))]
  }

  // The tree without parentheses of its own.
  function PrintBody(e: Expr): seq<Lexeme>
    decreases e, 0
  {
    match e
    case IntegerLiteral(i) => PrintInteger(i)
    case StringLiteral(s) => [Lexeme(StringToken, Quote(s))]
    case BooleanLiteral(b) => [Fixed(if b then True else False)]
    case NullLiteral => [Fixed(NullKeyword)]
    case StarExpr => [Fixed(StarSign)]
    case ColumnRef(name) => PrintColumn(name)
    case UnaryExpr(op, x) =>
      (match op
       case Not => [Fixed(NotKeyword)] + PrintNotOperand(x)
       case Plus => [Fixed(PlusSign)] + PrintOperand(x, PREFIX_LEVEL)
       case Minus => [Fixed(MinusSign)] + PrintOperand(x, PREFIX_LEVEL))
    case BinaryExpr(l, op, r) =>
      PrintOperand(l, Precedence(op)) + ([Fixed(OperatorType(op))] + PrintOperand(r, Precedence(op) + 1))
  }

  function PrintOperand(e: Expr, level: nat): seq<Lexeme>
    decreases e, 1
  {
    if NeedsParens(e, level) then [Fixed(LeftParen)] + (PrintBody(e) + [Fixed(RightParen)]) else PrintBody(e)
  }

  function PrintNotOperand(e: Expr): seq<Lexeme>
    decreases e, 2
  {
    if IsNot(e) then PrintBody(e) else PrintOperand(e, NOT_PRECEDENCE)
  }

  // The trees a parser can return: negative integers other than the minimum come as a sign
  // applied to a magnitude.
  predicate Producible(e: Expr) {
    match e
    case IntegerLiteral(i) => i >= 0 || i == INT64_MIN
    case UnaryExpr(_, x) => Producible(x)
    case BinaryExpr(l, _, r) => Producible(l) && Producible(r)
    case _ => true
  }

  // ---------------------------------------------------------------- literals

  lemma {:induction false} DecimalReadsBack(n: nat)
    ensures AllDigits(Decimal(n)) && DigitsValue(Decimal(n)) == n
  {
    if n < 10 {
      var d: Text := [('0' as int + n) as char];
      assert Decimal(n) == d && d[..0] == [];
      assert DigitsValue([]) == 0;
    } else {
      DecimalReadsBack(n / 10);
      var s := Decimal(n);
      assert s[..|s| - 1] == Decimal(n / 10);
    }
  }

  lemma OneMoreDigit(s: Text, k: nat, v: nat)
    requires k < |s| && AllDigits(s) && DigitsValue(s[..k]) == v
    ensures DigitsValue(s[..k + 1]) == 10 * v + (s[k] as int - '0' as int)
  {
    assert s[..k + 1][..k] == s[..k];
  }

  // Without leading zeros, digits have one value and a value has one spelling.
  lemma {:induction false} DigitsAreDecimal(s: Text)
    requires s != [] && AllDigits(s) && s[0] != '0'
    ensures DigitsValue(s) > 0 && Decimal(DigitsValue(s)) == s
  {
    var last := s[|s| - 1];
    if |s| == 1 {
      assert s[..0] == [] && DigitsValue([]) == 0;
      assert s == [last];
    } else {
      var front := s[..|s| - 1];
      DigitsAreDecimal(front);
      var v := DigitsValue(front);
      var d := last as int - '0' as int;
      assert (10 * v + d) / 10 == v && (10 * v + d) % 10 == d;
      assert s == front + [last];
    }
  }

  lemma MinMagnitudeFront(s: Text)
    requires s == MIN_MAGNITUDE && AllDigits(s)
    ensures DigitsValue(s[..10]) == 9223372036
  {
    hide DigitsValue, AllDigits, IsDigit;
    assert s[..0] == [] && DigitsValue([]) == 0 by { NoDigits(); }
    OneMoreDigit(s, 0, 0);
    OneMoreDigit(s, 1, 9);
    OneMoreDigit(s, 2, 92);
    OneMoreDigit(s, 3, 922);
    OneMoreDigit(s, 4, 9223);
    OneMoreDigit(s, 5, 92233);
    OneMoreDigit(s, 6, 922337);
    OneMoreDigit(s, 7, 9223372);
    OneMoreDigit(s, 8, 92233720);
    OneMoreDigit(s, 9, 922337203);
  }

  lemma NoDigits()
    ensures AllDigits([]) && DigitsValue([]) == 0
  {
  }

  lemma MinMagnitudeBack(s: Text)
    requires s == MIN_MAGNITUDE && AllDigits(s) && DigitsValue(s[..10]) == 9223372036
    ensures DigitsValue(s) == 9223372036854775808
  {
    hide DigitsValue, AllDigits, IsDigit;
    OneMoreDigit(s, 10, 9223372036);
    OneMoreDigit(s, 11, 92233720368);
    OneMoreDigit(s, 12, 922337203685);
    OneMoreDigit(s, 13, 9223372036854);
    OneMoreDigit(s, 14, 92233720368547);
    OneMoreDigit(s, 15, 922337203685477);
    OneMoreDigit(s, 16, 9223372036854775);
    OneMoreDigit(s, 17, 92233720368547758);
    OneMoreDigit(s, 18, 922337203685477580);
    assert s[..19] == s;
  }

  lemma MinMagnitudeValue()
    ensures AllDigits(MIN_MAGNITUDE) && DigitsValue(MIN_MAGNITUDE) == INT64_MAX + 1
    ensures Decimal(INT64_MAX + 1) == MIN_MAGNITUDE
  {
    hide Decimal, DigitsValue;
    var s := MIN_MAGNITUDE;
    MinMagnitudeFront(s);
    MinMagnitudeBack(s);
    DigitsAreDecimal(s);
  }

  lemma IntegerReadsBack(i: int64)
    requires i >= 0
    ensures IntegerValue(Decimal(i)) == Some(i) && Decimal(i) != MIN_MAGNITUDE
  {
    DecimalReadsBack(i);
    MinMagnitudeValue();
  }

  lemma {:induction false} UnescapeReadsBack(lexeme: Text, i: nat, s: Text)
    requires i <= |lexeme| && lexeme[i..] == QuoteBody(s) + "'"
    ensures UnescapeFrom(lexeme, i) == s
    decreases |s|
  {
    var tail := lexeme[i..];
    if s != [] {
      assert tail[0] == lexeme[i];
      if s[0] == '\'' {
        assert tail == "''" + (QuoteBody(s[1..]) + "'");
        assert tail[1] == lexeme[i + 1];
        assert lexeme[i + 2..] == tail[2..];
        UnescapeReadsBack(lexeme, i + 2, s[1..]);
      } else {
        assert tail == [s[0]] + (QuoteBody(s[1..]) + "'");
        assert lexeme[i + 1..] == tail[1..];
        UnescapeReadsBack(lexeme, i + 1, s[1..]);
      }
      assert s == [s[0]] + s[1..];
    }
  }

  lemma StringReadsBack(s: Text)
    ensures UnescapeSqlString(Quote(s)) == Some(s)
  {
    var q := Quote(s);
    assert q[1..] == QuoteBody(s) + "'";
    UnescapeReadsBack(q, 1, s);
  }

  // ---------------------------------------------------------------- token lists in place

  // The tokens ls stand at pos, with at least one token after them.
  predicate Here(ts: seq<Lexeme>, pos: nat, ls: seq<Lexeme>) {
    pos + |ls| < |ts| && ts[pos..pos + |ls|] == ls
  }

  lemma HereSplit(ts: seq<Lexeme>, pos: nat, a: seq<Lexeme>, b: seq<Lexeme>)
    requires Here(ts, pos, a + b)
    ensures Here(ts, pos, a) && Here(ts, pos + |a|, b)
    ensures a != [] ==> ts[pos] == a[0]
    ensures b != [] ==> ts[pos + |a|] == b[0]
  {
    var s := ts[pos..pos + |a + b|];
    assert s[..|a|] == a && s[|a|..] == b;
    assert ts[pos..pos + |a|] == s[..|a|] && ts[pos + |a|..pos + |a| + |b|] == s[|a|..];
    assert a != [] ==> s[0] == ts[pos];
    assert b != [] ==> s[|a|] == ts[pos + |a|];
  }

  lemma HereCons(ts: seq<Lexeme>, pos: nat, t: Lexeme, rest: seq<Lexeme>)
    requires Here(ts, pos, [t] + rest)
    ensures pos + 1 + |rest| < |ts| && ts[pos] == t && Here(ts, pos + 1, rest)
  {
    HereSplit(ts, pos, [t], rest);
  }

  lemma HereAppend(ts: seq<Lexeme>, pos: nat, a: seq<Lexeme>, b: seq<Lexeme>)
    requires Here(ts, pos, a + b)
    ensures pos + |a| + |b| < |ts| && Here(ts, pos, a) && Here(ts, pos + |a|, b)
  {
    HereSplit(ts, pos, a, b);
  }

  // The token ends an expression: it is neither an operator nor a dot.
  predicate EndsExpression(t: Lexeme) {
    BinaryPrecedence(t.ty) < 0 && t.ty != Dot
  }

  // ---------------------------------------------------------------- parsing inverts printing

  lemma DotStep(ts: seq<Lexeme>, pos: nat, name: Text, part: Text)
    requires Terminated(ts) && pos + 2 < |ts|
    requires ts[pos].ty == Dot && ts[pos + 1] == Lexeme(Identifier, part)
    ensures ParseDotted(ts, name, pos) == ParseDotted(ts, name + "." + part, pos + 2)
  {
  }

  lemma {:induction false} DottedTailParses(ts: seq<Lexeme>, pos: nat, name: Text, rest: Text)
    requires Terminated(ts) && Here(ts, pos, DottedTail(rest)) && ts[pos + |DottedTail(rest)|].ty != Dot
    requires rest != [] ==> rest[0] == '.'
    ensures ParseDotted(ts, name, pos) == Ok((name + rest, pos + |DottedTail(rest)|))
    decreases |rest|
  {
    hide Spelling, DottedTail, ParseDotted, FirstDot, Here;
    DottedTailCons(rest);
    HereBound(ts, pos, DottedTail(rest));
    if rest == [] {
      assert name + rest == name;
      DotStops(ts, pos, name);
    } else {
      var body := rest[1..];
      var k := FirstDot(body);
      var part := body[..k];
      var more := DottedTail(body[k..]);
      HereCons(ts, pos, Fixed(Dot), [Lexeme(Identifier, part)] + more);
      HereCons(ts, pos + 1, Lexeme(Identifier, part), more);
      HereBound(ts, pos + 2, more);
      DotStep(ts, pos, name, part);
      DottedTailParses(ts, pos + 2, name + "." + part, body[k..]);
      NameGrows(name, rest, k);
    }
  }

  lemma HereBound(ts: seq<Lexeme>, pos: nat, ls: seq<Lexeme>)
    requires Here(ts, pos, ls)
    ensures pos + |ls| < |ts|
  {
  }

  lemma DotStops(ts: seq<Lexeme>, pos: nat, name: Text)
    requires Terminated(ts) && pos < |ts| && ts[pos].ty != Dot
    ensures ParseDotted(ts, name, pos) == Ok((name, pos))
  {
  }

  lemma NameGrows(name: Text, rest: Text, k: nat)
    requires rest != [] && rest[0] == '.' && k <= |rest| - 1
    ensures name + "." + rest[1..][..k] + rest[1..][k..] == name + rest
  {
    var body := rest[1..];
    assert rest == "." + body && body == body[..k] + body[k..];
  }

  lemma DottedTailCons(rest: Text)
    ensures rest == [] ==> DottedTail(rest) == []
    ensures rest != [] ==>
            var body := rest[1..]; var k := FirstDot(body);
            DottedTail(rest) == [Fixed(Dot)] + ([Lexeme(Identifier, body[..k])] + DottedTail(body[k..]))
  {
  }

  lemma PrimaryIsPrefix(ts: seq<Lexeme>, pos: nat)
    requires Terminated(ts) && pos < |ts| && ts[pos].ty != PlusSign && ts[pos].ty != MinusSign
    ensures ParsePrefix(ts, pos) == ParsePrimary(ts, pos)
  {
  }

  lemma IntegerParses(ts: seq<Lexeme>, pos: nat, i: int64)
    requires Terminated(ts) && (i >= 0 || i == INT64_MIN) && Here(ts, pos, PrintInteger(i))
    ensures ParsePrefix(ts, pos) == Ok((IntegerLiteral(i), pos + |PrintInteger(i)|))
  {
    hide IntegerValue, Decimal;
    if i >= 0 {
      HereCons(ts, pos, Lexeme(IntegerToken, Decimal(i)), []);
      IntegerReadsBack(i);
      PrimaryIsPrefix(ts, pos);
    } else {
      HereCons(ts, pos, Fixed(MinusSign), [Lexeme(IntegerToken, MIN_MAGNITUDE)]);
    }
  }

  lemma ColumnParses(ts: seq<Lexeme>, pos: nat, name: Text)
    requires Terminated(ts) && Here(ts, pos, PrintColumn(name)) && ts[pos + |PrintColumn(name)|].ty != Dot
    ensures ParsePrefix(ts, pos) == Ok((ColumnRef(name), pos + |PrintColumn(name)|))
  {
    hide ParseDotted, DottedTail, FirstDot, ParsePrefix, Here, PrintColumn;
    ColumnPrints(name);
    var k := FirstDot(name);
    var tail := DottedTail(name[k..]);
    HereCons(ts, pos, Lexeme(Identifier, name[..k]), tail);
    DottedTailParses(ts, pos + 1, name[..k], name[k..]);
    assert name[..k] + name[k..] == name;
    HereBound(ts, pos + 1, tail);
    IdentifierStep(ts, pos, name[..k], name, pos + 1 + |tail|);
  }

  lemma ColumnPrints(name: Text)
    ensures var k := FirstDot(name); PrintColumn(name) == [Lexeme(Identifier, name[..k])] + DottedTail(name[k..])
  {
  }

  lemma IdentifierStep(ts: seq<Lexeme>, pos: nat, first: Text, name: Text, next: nat)
    requires Terminated(ts) && pos + 1 < |ts| && ts[pos] == Lexeme(Identifier, first)
    requires ParseDotted(ts, first, pos + 1) == Ok((name, next))
    ensures ParsePrefix(ts, pos) == Ok((ColumnRef(name), next))
  {
    hide ParseDotted;
    PrimaryIsPrefix(ts, pos);
  }

  lemma AtomParses(ts: seq<Lexeme>, pos: nat, e: Expr)
    requires Terminated(ts) && Producible(e) && !e.UnaryExpr? && !e.BinaryExpr?
    requires Here(ts, pos, PrintBody(e)) && ts[pos + |PrintBody(e)|].ty != Dot
    ensures ParsePrefix(ts, pos) == Ok((e, pos + |PrintBody(e)|))
  {
    hide IntegerValue, UnescapeSqlString, PrintInteger, PrintColumn, Quote, ParsePrefix, Spelling;
    if e.IntegerLiteral? {
      IntegerParses(ts, pos, e.i);
    } else if e.ColumnRef? {
      ColumnParses(ts, pos, e.name);
    } else {
      HereSplit(ts, pos, PrintBody(e), []);
      assert PrintBody(e) + [] == PrintBody(e);
      PrimaryIsPrefix(ts, pos);
      if e.StringLiteral? {
        StringReadsBack(e.s);
      }
    }
  }

  lemma ParenStep(ts: seq<Lexeme>, pos: nat, e: Expr, next: nat)
    requires Terminated(ts) && pos < |ts| && next < |ts| && ts[pos].ty == LeftParen
    requires ParseExpr(ts, pos + 1, 0) == Ok((e, next)) && ts[next].ty == RightParen
    ensures ParsePrefix(ts, pos) == Ok((e, next + 1))
  {
    hide ParseExpr;
    PrimaryIsPrefix(ts, pos);
  }

  lemma SignStep(ts: seq<Lexeme>, pos: nat, op: UnaryOperator, e: Expr, next: nat)
    requires Terminated(ts) && pos + 1 < |ts| && op != Not && ts[pos].ty == (if op == Plus then PlusSign else MinusSign)
    requires ts[pos + 1] != Lexeme(IntegerToken, MIN_MAGNITUDE)
    requires ParsePrefix(ts, pos + 1) == Ok((e, next))
    ensures ParsePrefix(ts, pos) == Ok((UnaryExpr(op, e), next))
  {
  }

  lemma {:induction false} ParenthesisedParses(ts: seq<Lexeme>, pos: nat, e: Expr)
    requires Terminated(ts) && Producible(e) && Here(ts, pos, [Fixed(LeftParen)] + (PrintBody(e) + [Fixed(RightParen)]))
    ensures ParsePrefix(ts, pos) == Ok((e, pos + |PrintBody(e)| + 2))
    decreases e, 3
  {
    hide ParsePrefix, ParseExpr, Spelling, PrintBody, Here, EndsExpression;
    var body := PrintBody(e);
    HereCons(ts, pos, Fixed(LeftParen), body + [Fixed(RightParen)]);
    HereSplit(ts, pos + 1, body, [Fixed(RightParen)]);
    HereBound(ts, pos + 1 + |body|, [Fixed(RightParen)]);
    ParenEnds(ts[pos + 1 + |body|]);
    BodyParses(ts, pos + 1, e);
    ParenStep(ts, pos, e, pos + 1 + |body|);
  }

  lemma {:induction false} SignedParses(ts: seq<Lexeme>, pos: nat, op: UnaryOperator, x: Expr)
    requires Terminated(ts) && Producible(x) && op != Not
    requires var ls := [Fixed(if op == Plus then PlusSign else MinusSign)] + PrintOperand(x, PREFIX_LEVEL);
             Here(ts, pos, ls) && ts[pos + |ls|].ty != Dot
    ensures ParsePrefix(ts, pos) == Ok((UnaryExpr(op, x), pos + 1 + |PrintOperand(x, PREFIX_LEVEL)|))
    decreases x, 9
  {
    hide ParsePrefix, Spelling, PrintOperand, Here;
    var operand := PrintOperand(x, PREFIX_LEVEL);
    HereCons(ts, pos, Fixed(if op == Plus then PlusSign else MinusSign), operand);
    HereBound(ts, pos + 1, operand);
    SignOperandCases(x);
    PrefixParses(ts, pos + 1, x, PREFIX_LEVEL);
    SignOperandIsNotMinMagnitude(ts, pos + 1, x);
    SignStep(ts, pos, op, x, pos + 1 + |operand|);
  }

  lemma SignOperandCases(x: Expr)
    ensures NeedsParens(x, PREFIX_LEVEL) || !x.BinaryExpr?
  {
  }

  // Parentheses, signs and atoms are complete prefix expressions.
  lemma {:induction false} PrefixParses(ts: seq<Lexeme>, pos: nat, e: Expr, level: nat)
    requires Terminated(ts) && Producible(e)
    requires NeedsParens(e, level) || !e.BinaryExpr?
    requires Here(ts, pos, PrintOperand(e, level)) && ts[pos + |PrintOperand(e, level)|].ty != Dot
    ensures ParsePrefix(ts, pos) == Ok((e, pos + |PrintOperand(e, level)|))
    decreases e, if NeedsParens(e, level) then 4 else 0
  {
    hide ParsePrefix, Spelling, PrintBody, PrintOperand, Here;
    if NeedsParens(e, level) {
      ParensPrint(e, level);
      ParenthesisedParses(ts, pos, e);
    } else if e.UnaryExpr? {
      BarePrints(e, level);
      SignPrints(e);
      SignedParses(ts, pos, e.op, e.operand);
    } else {
      BarePrints(e, level);
      AtomParses(ts, pos, e);
    }
  }

  lemma ParensPrint(e: Expr, level: nat)
    requires NeedsParens(e, level)
    ensures PrintOperand(e, level) == [Fixed(LeftParen)] + (PrintBody(e) + [Fixed(RightParen)])
  {
  }

  lemma ParenEnds(t: Lexeme)
    requires t == Fixed(RightParen)
    ensures EndsExpression(t) && t.ty == RightParen
  {
  }

  lemma SignPrints(e: Expr)
    requires e.UnaryExpr? && e.op != Not
    ensures PrintBody(e) == [Fixed(if e.op == Plus then PlusSign else MinusSign)] + PrintOperand(e.operand, PREFIX_LEVEL)
  {
  }

  // A printed operand never begins with the bare magnitude of the minimum.
  lemma SignOperandIsNotMinMagnitude(ts: seq<Lexeme>, pos: nat, x: Expr)
    requires Producible(x) && Here(ts, pos, PrintOperand(x, PREFIX_LEVEL))
    ensures ts[pos] != Lexeme(IntegerToken, MIN_MAGNITUDE)
  {
    hide Decimal, IntegerValue, Quote;
    var ls := PrintOperand(x, PREFIX_LEVEL);
    HereSplit(ts, pos, ls, []);
    assert ls + [] == ls;
    if x.IntegerLiteral? && x.i >= 0 {
      IntegerReadsBack(x.i);
    }
  }

  // The heart of precedence climbing: parsing the operand from any lower level m builds it and
  // continues in the operator loop with it as the left operand.
  lemma {:induction false} OperandParses(ts: seq<Lexeme>, pos: nat, e: Expr, level: nat, m: nat)
    requires Terminated(ts) && Producible(e) && m <= level
    requires Here(ts, pos, PrintOperand(e, level))
    requires var next := ts[pos + |PrintOperand(e, level)|].ty; BinaryPrecedence(next) <= level && next != Dot
    ensures ParseExpr(ts, pos, m) == ParseOperators(ts, e, pos + |PrintOperand(e, level)|, m)
    decreases e, if NeedsParens(e, level) || !e.BinaryExpr? then 5 else 1
  {
    hide ParsePrefix, ParseExpr, ParseOperators, Spelling, OperatorType, PrintBody, PrintOperand, Here, BinaryPrecedence,
         TokenToBinaryOperator;
    HereBound(ts, pos, PrintOperand(e, level));
    if NeedsParens(e, level) || !e.BinaryExpr? {
      PrefixParses(ts, pos, e, level);
      ExprFromPrefix(ts, pos, m);
    } else {
      BarePrints(e, level);
      BinaryPrints(e);
      BinaryParses(ts, pos, e, m);
    }
  }

  lemma {:induction false} BinaryParses(ts: seq<Lexeme>, pos: nat, e: Expr, m: nat)
    requires Terminated(ts) && Producible(e) && e.BinaryExpr? && m <= Precedence(e.bop)
    requires var ls := PrintOperand(e.left, Precedence(e.bop)) +
                       ([Fixed(OperatorType(e.bop))] + PrintOperand(e.right, Precedence(e.bop) + 1));
             && Here(ts, pos, ls) && BinaryPrecedence(ts[pos + |ls|].ty) <= Precedence(e.bop) && ts[pos + |ls|].ty != Dot
    ensures ParseExpr(ts, pos, m) == ParseOperators(ts, e, pos + |PrintOperand(e.left, Precedence(e.bop))| +
                                                           1 + |PrintOperand(e.right, Precedence(e.bop) + 1)|, m)
    decreases e, 0
  {
    hide ParsePrefix, ParseExpr, ParseOperators, Spelling, OperatorType, PrintBody, PrintOperand, Here, BinaryPrecedence,
         TokenToBinaryOperator, Precedence;
    var p := Precedence(e.bop);
    var operator := Fixed(OperatorType(e.bop));
    var left, right := PrintOperand(e.left, p), PrintOperand(e.right, p + 1);
    HereSplit(ts, pos, left, [operator] + right);
    var at := pos + |left|;
    HereCons(ts, at, operator, right);
    HereBound(ts, at + 1, right);
    OperatorIsNoDot(e.bop);
    OperandParses(ts, pos, e.left, p, m);
    OperandParses(ts, at + 1, e.right, p + 1, p + 1);
    LoopStops(ts, e.right, at + 1 + |right|, p + 1);
    LoopTakes(ts, e.left, at, m, e.right, at + 1 + |right|);
  }

  lemma OperatorIsNoDot(op: BinaryOperator)
    ensures OperatorType(op) != Dot
  {
  }

  lemma BarePrints(e: Expr, level: nat)
    requires !NeedsParens(e, level)
    ensures PrintOperand(e, level) == PrintBody(e)
  {
  }

  lemma BinaryPrints(e: Expr)
    requires e.BinaryExpr?
    ensures PrintBody(e) == PrintOperand(e.left, Precedence(e.bop)) + ([Fixed(OperatorType(e.bop))] + PrintOperand(e.right, Precedence(e.bop) + 1))
  {
  }

  lemma ExprFromPrefix(ts: seq<Lexeme>, pos: nat, m: nat)
    requires Terminated(ts) && pos < |ts| && ParsePrefix(ts, pos).Ok?
    ensures var (e, next) := ParsePrefix(ts, pos).value; ParseExpr(ts, pos, m) == ParseOperators(ts, e, next, m)
  {
    hide ParseOperators;
  }

  lemma LoopStops(ts: seq<Lexeme>, left: Expr, pos: nat, min: nat)
    requires Terminated(ts) && pos < |ts| && BinaryPrecedence(ts[pos].ty) < min
    ensures ParseOperators(ts, left, pos, min) == Ok((left, pos))
  {
  }

  lemma LoopTakes(ts: seq<Lexeme>, left: Expr, pos: nat, min: nat, right: Expr, next: nat)
    requires Terminated(ts) && pos < |ts| && BinaryPrecedence(ts[pos].ty) >= min && next < |ts|
    requires ParseExpr(ts, pos + 1, BinaryPrecedence(ts[pos].ty) + 1) == Ok((right, next))
    ensures ParseOperators(ts, left, pos, min) ==
            ParseOperators(ts, BinaryExpr(left, TokenToBinaryOperator(ts[pos].ty), right), next, min)
  {
  }

  lemma {:induction false} NotOperandParses(ts: seq<Lexeme>, pos: nat, e: Expr)
    requires Terminated(ts) && Producible(e)
    requires Here(ts, pos, PrintNotOperand(e))
    requires var next := ts[pos + |PrintNotOperand(e)|].ty; BinaryPrecedence(next) < NOT_PRECEDENCE && next != Dot
    ensures ParseExpr(ts, pos, NOT_PRECEDENCE) == Ok((e, pos + |PrintNotOperand(e)|))
    decreases e, 6
  {
    hide PrintBody, ParsePrefix, ParseOperators, Spelling;
    if IsNot(e) {
      NotPrints(e);
      HereCons(ts, pos, Fixed(NotKeyword), PrintNotOperand(e.operand));
      NotOperandParses(ts, pos + 1, e.operand);
    } else {
      OperandParses(ts, pos, e, NOT_PRECEDENCE, NOT_PRECEDENCE);
      LoopStops(ts, e, pos + |PrintNotOperand(e)|, NOT_PRECEDENCE);
    }
  }

  lemma NotPrints(e: Expr)
    requires IsNot(e)
    ensures PrintBody(e) == [Fixed(NotKeyword)] + PrintNotOperand(e.operand)
  {
  }

  // A whole expression up to a token that ends it.
  lemma {:induction false} BodyParses(ts: seq<Lexeme>, pos: nat, e: Expr)
    requires Terminated(ts) && Producible(e)
    requires Here(ts, pos, PrintBody(e)) && EndsExpression(ts[pos + |PrintBody(e)|])
    ensures ParseExpr(ts, pos, 0) == Ok((e, pos + |PrintBody(e)|))
    decreases e, 2
  {
    hide PrintBody, ParseOperators, Spelling, ParsePrimary, ParsePrefix;
    var end := pos + |PrintBody(e)|;
    if IsNot(e) {
      NotPrints(e);
      HereCons(ts, pos, Fixed(NotKeyword), PrintNotOperand(e.operand));
      NotOperandParses(ts, pos + 1, e.operand);
    } else if e.BinaryExpr? {
      OperandParses(ts, pos, e, 0, 0);
      LoopStops(ts, e, end, 0);
    } else {
      PrefixParses(ts, pos, e, 0);
      ExprFromPrefix(ts, pos, 0);
      LoopStops(ts, e, end, 0);
    }
  }

  // Every tree the parser can produce, parenthesised by the precedence table, parses back to the
  // same tree with all its tokens consumed.
  lemma ParsingInvertsPrinting(e: Expr, rest: seq<Lexeme>)
    requires Producible(e) && Terminated(rest) && EndsExpression(rest[0])
    ensures var ts := PrintBody(e) + rest;
            Terminated(ts) && ParseExpr(ts, 0, 0) == Ok((e, |PrintBody(e)|))
  {
    hide PrintBody, ParseExpr;
    var ts := PrintBody(e) + rest;
    assert ts[|PrintBody(e)|] == rest[0];
    assert ts[0..|PrintBody(e)|] == PrintBody(e);
    BodyParses(ts, 0, e);
  }

  // ---------------------------------------------------------------- what the parser produces

  lemma {:induction false} PrimaryIsProducible(ts: seq<Lexeme>, pos: nat)
    requires Terminated(ts) && pos < |ts| && ParsePrimary(ts, pos).Ok?
    ensures Producible(ParsePrimary(ts, pos).value.0)
    decreases |ts| - pos, 0
  {
    if ts[pos].ty == LeftParen {
      ExprIsProducible(ts, pos + 1, 0);
    }
  }

  lemma {:induction false} PrefixIsProducible(ts: seq<Lexeme>, pos: nat)
    requires Terminated(ts) && pos < |ts| && ParsePrefix(ts, pos).Ok?
    ensures Producible(ParsePrefix(ts, pos).value.0)
    decreases |ts| - pos, 1
  {
    hide ParsePrimary;
    if ts[pos].ty == MinusSign && ts[pos + 1] == Lexeme(IntegerToken, MIN_MAGNITUDE) {
    } else if ts[pos].ty == PlusSign || ts[pos].ty == MinusSign {
      PrefixIsProducible(ts, pos + 1);
    } else {
      PrimaryIsProducible(ts, pos);
    }
  }

  lemma {:induction false} OperatorsAreProducible(ts: seq<Lexeme>, left: Expr, pos: nat, min: nat)
    requires Terminated(ts) && pos < |ts| && Producible(left) && ParseOperators(ts, left, pos, min).Ok?
    ensures Producible(ParseOperators(ts, left, pos, min).value.0)
    decreases |ts| - pos, 0
  {
    hide ParseExpr;
    var precedence := BinaryPrecedence(ts[pos].ty);
    if precedence >= min {
      ExprIsProducible(ts, pos + 1, precedence + 1);
      var (right, next) := ParseExpr(ts, pos + 1, precedence + 1).value;
      OperatorsAreProducible(ts, BinaryExpr(left, TokenToBinaryOperator(ts[pos].ty), right), next, min);
    }
  }

  lemma {:induction false} ExprIsProducible(ts: seq<Lexeme>, pos: nat, min: nat)
    requires Terminated(ts) && pos < |ts| && ParseExpr(ts, pos, min).Ok?
    ensures Producible(ParseExpr(ts, pos, min).value.0)
    decreases |ts| - pos, 2
  {
    hide ParsePrefix, ParseOperators;
    if min <= NOT_PRECEDENCE && ts[pos].ty == NotKeyword {
      ExprIsProducible(ts, pos + 1, NOT_PRECEDENCE);
    } else {
      PrefixIsProducible(ts, pos);
      var (left, next) := ParsePrefix(ts, pos).value;
      OperatorsAreProducible(ts, left, next, min);
    }
  }

  // Printing what was parsed and parsing again gives the same tree: the printer loses nothing
  // the parser can see, and every parse has a canonical spelling.
  lemma ReparsingIsIdentity(ts: seq<Lexeme>, rest: seq<Lexeme>)
    requires Terminated(ts) && ParseExpr(ts, 0, 0).Ok? && Terminated(rest) && EndsExpression(rest[0])
    ensures var e := ParseExpr(ts, 0, 0).value.0;
            Terminated(PrintBody(e) + rest) && ParseExpr(PrintBody(e) + rest, 0, 0) == Ok((e, |PrintBody(e)|))
  {
    ExprIsProducible(ts, 0, 0);
    ParsingInvertsPrinting(ParseExpr(ts, 0, 0).value.0, rest);
  }

  // NOT does not re-enter the operator loop: in NOT a AND b, or NOT a OR b, whatever a is and
  // whatever follows, the parser builds NOT a and leaves the operator unread.
  lemma LeadingNotDoesNotContinue(ts: seq<Lexeme>, a: Expr)
    requires Terminated(ts) && Producible(a) && Here(ts, 0, PrintBody(UnaryExpr(Not, a)))
    requires var next := ts[|PrintBody(UnaryExpr(Not, a))|].ty; next == AndKeyword || next == OrKeyword
    ensures ParseExpr(ts, 0, 0) == Ok((UnaryExpr(Not, a), |PrintBody(UnaryExpr(Not, a))|))
  {
    hide PrintNotOperand, PrintBody, ParsePrefix, ParseOperators, Spelling, Producible;
    NotPrints(UnaryExpr(Not, a));
    HereCons(ts, 0, Fixed(NotKeyword), PrintNotOperand(a));
    NotOperandParses(ts, 1, a);
  }

  // Nor does a NOT on the right of OR give AND its usual precedence: a OR NOT b AND c is
  // (a OR NOT b) AND c, although a OR b AND c is a OR (b AND c).
  lemma NotEndsItsOperand(ts: seq<Lexeme>, a: Expr, b: Expr, c: Expr)
    requires Terminated(ts) && Producible(a) && Producible(b) && Producible(c)
    requires Here(ts, 0, OrNotAnd(a, b, c)) && EndsExpression(ts[|OrNotAnd(a, b, c)|])
    ensures ParseExpr(ts, 0, 0) == Ok((BinaryExpr(BinaryExpr(a, Or, UnaryExpr(Not, b)), And, c), |OrNotAnd(a, b, c)|))
  {
    hide PrintOperand, PrintNotOperand, Fixed, ParseExpr, Here, Producible, EndsExpression;
    var x, y, z := PrintOperand(a, 1), PrintNotOperand(b), PrintOperand(c, 3);
    NotSplit(ts, x, y, z);
    NotEndsAt(ts, a, b, c, |x|, |x| + 2 + |y|, |x| + 2 + |y| + 1 + |z|);
  }

  // The tokens of a OR NOT b AND c.
  function OrNotAnd(a: Expr, b: Expr, c: Expr): seq<Lexeme> {
    PrintOperand(a, 1) + ([Fixed(OrKeyword)] + ([Fixed(NotKeyword)] + (PrintNotOperand(b) + ([Fixed(AndKeyword)] + PrintOperand(c, 3)))))
  }

  lemma NotSplit(ts: seq<Lexeme>, x: seq<Lexeme>, y: seq<Lexeme>, z: seq<Lexeme>)
    requires Here(ts, 0, x + ([Fixed(OrKeyword)] + ([Fixed(NotKeyword)] + (y + ([Fixed(AndKeyword)] + z)))))
    ensures var p := |x|;
            var q := p + 2 + |y|;
            && q + 1 + |z| < |ts| && Here(ts, 0, x) && ts[p].ty == OrKeyword && ts[p + 1].ty == NotKeyword
            && Here(ts, p + 2, y) && ts[q].ty == AndKeyword && Here(ts, q + 1, z)
  {
    hide Here, Spelling;
    var tail := [Fixed(AndKeyword)] + z;
    var p := |x|;
    var q := p + 2 + |y|;
    HereAppend(ts, 0, x, [Fixed(OrKeyword)] + ([Fixed(NotKeyword)] + (y + tail)));
    HereCons(ts, p, Fixed(OrKeyword), [Fixed(NotKeyword)] + (y + tail));
    HereCons(ts, p + 1, Fixed(NotKeyword), y + tail);
    HereAppend(ts, p + 2, y, tail);
    HereCons(ts, q, Fixed(AndKeyword), z);
    HereBound(ts, q + 1, z);
  }

  lemma NotEndsAt(ts: seq<Lexeme>, a: Expr, b: Expr, c: Expr, p: nat, q: nat, end: nat)
    requires Terminated(ts) && Producible(a) && Producible(b) && Producible(c) && end < |ts|
    requires Here(ts, 0, PrintOperand(a, 1)) && p == |PrintOperand(a, 1)| && p + 1 < q < end
    requires ts[p].ty == OrKeyword && ts[p + 1].ty == NotKeyword && ts[q].ty == AndKeyword && EndsExpression(ts[end])
    requires Here(ts, p + 2, PrintNotOperand(b)) && q == p + 2 + |PrintNotOperand(b)|
    requires Here(ts, q + 1, PrintOperand(c, 3)) && end == q + 1 + |PrintOperand(c, 3)|
    ensures ParseExpr(ts, 0, 0) == Ok((BinaryExpr(BinaryExpr(a, Or, UnaryExpr(Not, b)), And, c), end))
  {
    hide PrintOperand, PrintNotOperand, Spelling, ParseExpr, ParseOperators, Here, Producible;
    NotOnTheRight(ts, a, b, p, q);
    OperandParses(ts, q + 1, c, 3, 3);
    LoopStops(ts, c, end, 3);
    var left := BinaryExpr(a, Or, UnaryExpr(Not, b));
    LoopTakes(ts, left, q, 0, c, end);
    LoopStops(ts, BinaryExpr(left, And, c), end, 0);
  }

  lemma NotOnTheRight(ts: seq<Lexeme>, a: Expr, b: Expr, p: nat, q: nat)
    requires Terminated(ts) && Producible(a) && Producible(b) && p + 1 < q < |ts|
    requires Here(ts, 0, PrintOperand(a, 1)) && p == |PrintOperand(a, 1)|
    requires ts[p].ty == OrKeyword && ts[p + 1].ty == NotKeyword && ts[q].ty == AndKeyword
    requires Here(ts, p + 2, PrintNotOperand(b)) && q == p + 2 + |PrintNotOperand(b)|
    ensures ParseExpr(ts, 0, 0) == ParseOperators(ts, BinaryExpr(a, Or, UnaryExpr(Not, b)), q, 0)
  {
    hide PrintOperand, PrintNotOperand, Spelling, ParseExpr, ParseOperators, Here, Producible;
    OperandParses(ts, 0, a, 1, 0);
    NotOperandParses(ts, p + 2, b);
    NotParses(ts, p + 1, b, q);
    LoopTakes(ts, a, p, 0, UnaryExpr(Not, b), q);
  }

  lemma NotParses(ts: seq<Lexeme>, pos: nat, e: Expr, next: nat)
    requires Terminated(ts) && pos + 1 < |ts| && ts[pos].ty == NotKeyword && ParseExpr(ts, pos + 1, NOT_PRECEDENCE) == Ok((e, next))
    ensures ParseExpr(ts, pos, 2) == Ok((UnaryExpr(Not, e), next))
  {
    hide ParsePrefix, ParseOperators;
  }
}
