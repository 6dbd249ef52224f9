/**
  What a token list says about the text it came from, and the converse: which texts lex to a
  given list of words.
 */
module LexerTiling {
  import opened Common
  import opened Lexer

  // ---------------------------------------------------------------- what trivia is

  // Two characters of the input.
  predicate PairAt(input: Text, pos: nat, pair: Text)
    requires |pair| == 2
  {
    pos + 2 <= |input| && input[pos] == pair[0] && input[pos + 1] == pair[1]
  }

  predicate IsBlankCharacter(c: ByteChar) {
    c == ' ' || c == '\t' || c == '\n' || c == 11 as char || c == 12 as char || c == '\r'
  }

  // From `from` up to `to`: one blank, one line comment that runs to its line end or to the end
  // of the input, or one complete block comment.
  ghost predicate IsTriviaPiece(input: Text, from: nat, to: nat) {
    && from < to <= |input|
    && (|| (to == from + 1 && IsBlankCharacter(input[from]))
        || (to >= from + 2 && PairAt(input, from, "--") && (forall j :: from + 2 <= j < to ==> input[j] != '\n' && input[j] != '\r')
            && (to == |input| || input[to] == '\n' || input[to] == '\r'))
        || (to >= from + 4 && PairAt(input, from, "/*") && PairAt(input, to - 2, "*/")
            && forall j :: from + 2 <= j < to - 2 ==> !PairAt(input, j, "*/")))
  }

  ghost predicate IsTrivia(input: Text, from: nat, to: nat)
    decreases to - from
  {
    from == to || exists next :: from < next <= to && IsTriviaPiece(input, from, next) && IsTrivia(input, next, to)
  }

  lemma {:induction false} LineCommentHasNoLineEnd(input: Text, pos: nat)
    requires pos <= |input|
    ensures forall j :: pos <= j < LineCommentEnd(input, pos) ==> !IsLineEnd(input[j])
    ensures LineCommentEnd(input, pos) == |input| || IsLineEnd(input[LineCommentEnd(input, pos)])
    decreases |input| - pos
  {
    if pos < |input| && !IsLineEnd(input[pos]) {
      LineCommentHasNoLineEnd(input, pos + 1);
    }
  }

  lemma {:induction false} BlockCommentEndsOnce(input: Text, pos: nat)
    requires pos <= |input| && BlockCommentEnd(input, pos).Some?
    ensures var end := BlockCommentEnd(input, pos).value;
            && pos + 2 <= end && EndsBlockComment(input, end - 2)
            && forall j :: pos <= j < end - 2 ==> !EndsBlockComment(input, j)
    decreases |input| - pos
  {
    if !EndsBlockComment(input, pos) {
      BlockCommentEndsOnce(input, pos + 1);
    }
  }

  lemma {:induction false} SkippedTextIsTrivia(input: Text, pos: nat)
    requires pos <= |input| && TriviaEnd(input, pos).Some?
    ensures IsTrivia(input, pos, TriviaEnd(input, pos).value)
    decreases |input| - pos
  {
    var end := TriviaEnd(input, pos).value;
    if pos < |input| && end > pos {
      var next :=
        if IsSpace(input[pos]) then pos + 1
        else if StartsLineComment(input, pos) then LineCommentEnd(input, pos + 2)
        else BlockCommentEnd(input, pos + 2).value;
      SkippedTextIsTrivia(input, next);
      PieceIsTrivia(input, pos, next);
    }
  }

  lemma PairsAreMarks(input: Text)
    ensures forall j: nat :: PairAt(input, j, "--") <==> StartsLineComment(input, j)
    ensures forall j: nat :: PairAt(input, j, "/*") <==> StartsBlockComment(input, j)
    ensures forall j: nat :: PairAt(input, j, "*/") <==> EndsBlockComment(input, j)
  {
  }

  predicate IsNextPiece(input: Text, pos: nat, next: nat)
    requires pos < |input|
  {
    if IsSpace(input[pos]) then next == pos + 1
    else if StartsLineComment(input, pos) then next == LineCommentEnd(input, pos + 2)
    else StartsBlockComment(input, pos) && BlockCommentEnd(input, pos + 2) == Some(next)
  }

  // A piece is as long as the scanner's step over it, no more and no less.
  lemma PieceIsTrivia(input: Text, pos: nat, next: nat)
    requires pos < |input|
    ensures IsTriviaPiece(input, pos, next) <==> IsNextPiece(input, pos, next)
  {
    PairsAreMarks(input);
    if !IsSpace(input[pos]) {
      if StartsLineComment(input, pos) {
        LineCommentHasNoLineEnd(input, pos + 2);
      } else if StartsBlockComment(input, pos) {
        if BlockCommentEnd(input, pos + 2).Some? {
          BlockCommentEndsOnce(input, pos + 2);
        } else {
          NoBlockCommentEnd(input, pos + 2);
        }
      }
    }
  }

  lemma {:induction false} NoBlockCommentEnd(input: Text, pos: nat)
    requires pos <= |input| && BlockCommentEnd(input, pos).None?
    ensures forall j :: pos <= j < |input| ==> !EndsBlockComment(input, j)
    decreases |input| - pos
  {
    if pos < |input| {
      NoBlockCommentEnd(input, pos + 1);
    }
  }

  // Trivia in front of a token, or of the end, is what the scanner skips.
  lemma {:induction false} TriviaIsSkipped(input: Text, pos: nat, q: nat)
    requires pos <= q <= |input| && IsTrivia(input, pos, q) && (q == |input| || AtToken(input, q))
    ensures TriviaEnd(input, pos) == Some(q)
    decreases q - pos
  {
    if pos < q {
      var next :| pos < next <= q && IsTriviaPiece(input, pos, next) && IsTrivia(input, next, q);
      PieceIsTrivia(input, pos, next);
      TriviaIsSkipped(input, next, q);
    }
  }

  // ---------------------------------------------------------------- tiling

  // tokens cover input from pos to its end: trivia, then a token whose lexeme is its source
  // slice and whose locations are functions of the consumed prefix, that is a token on its own
  // and as long as it can be, and so on; one EOF, last.
  ghost predicate Tiles(input: Text, pos: nat, tokens: seq<Token>)
    decreases |tokens|
  {
    && tokens != []
    && var t := tokens[0];
    && pos <= t.start.offset <= t.end.offset <= |input|
    && IsTrivia(input, pos, t.start.offset)
    && t == MakeToken(input, t.start.offset, t.end.offset, t.ty)
    && (t.ty == EndOfFile <==> |tokens| == 1)
    && (if |tokens| == 1 then t.start.offset == |input|
        else t.start.offset < t.end.offset && RelexesAlone(t) && CannotGrow(input, t) && Tiles(input, t.end.offset, tokens[1..]))
  }

  // The character after the token does not belong to it; an unclosed text runs to the end.
  ghost predicate CannotGrow(input: Text, t: Token) {
    t.lexeme != [] &&
    if t.ty == Invalid && t.lexeme[0] == '\'' then t.end.offset == |input|
    else CanFollow(t.lexeme, CharAt(input, t.end.offset))
  }

  // The lexeme on its own is one token of the same type.
  ghost predicate RelexesAlone(t: Token) {
    var r := TokenizeText(t.lexeme);
    r.Ok? && |r.value| == 2 && r.value[0].ty == t.ty && r.value[0].lexeme == t.lexeme && r.value[1].ty == EndOfFile
  }

  lemma {:induction false} IdentifierAlone(input: Text, q: nat, i: nat, end: nat)
    requires q + i <= end <= |input| && IdentifierEnd(input, q + i) == end
    ensures IdentifierEnd(input[q..end], i) == end - q
    decreases end - i
  {
    if q + i < end {
      IdentifierAlone(input, q, i + 1, end);
    }
  }

  lemma {:induction false} NumberAlone(input: Text, q: nat, i: nat, end: nat)
    requires q + i <= end <= |input| && NumberEnd(input, q + i) == end
    ensures NumberEnd(input[q..end], i) == end - q
    decreases end - i
  {
    if q + i < end {
      NumberAlone(input, q, i + 1, end);
    }
  }

  lemma {:induction false} StringAlone(input: Text, q: nat, i: nat, end: nat)
    requires q + i <= end <= |input|
    requires StringEnd(input, q + i) == Some(end) || (StringEnd(input, q + i) == None && end == |input|)
    ensures StringEnd(input[q..end], i) == if StringEnd(input, q + i).Some? then Some(end - q) else None
    decreases end - i
  {
    var w := input[q..end];
    if q + i < end {
      assert w[i] == input[q + i];
      if input[q + i] != '\'' {
        StringAlone(input, q, i + 1, end);
      } else if CharAt(input, q + i + 1) == '\'' {
        assert w[i + 1] == '\'';
        StringAlone(input, q, i + 2, end);
      }
    }
  }

  // Nothing is skipped at pos.
  predicate AtToken(input: Text, pos: nat) {
    pos < |input| && !IsSpace(input[pos]) && !StartsLineComment(input, pos) && !StartsBlockComment(input, pos)
  }

  lemma TokenAlone(input: Text, q: nat)
    requires q < |input| && AtToken(input, q)
    ensures var (ty, end) := TokenAt(input, q);
            var w := input[q..end];
            AtToken(w, 0) && TokenAt(w, 0) == (ty, |w|)
  {
    hide LookupKeyword;
    var (ty, end) := TokenAt(input, q);
    var w := input[q..end];
    assert w[..|w|] == w;
    if IsAlpha(input[q]) {
      IdentifierAlone(input, q, 1, end);
    } else if IsDigit(input[q]) {
      NumberAlone(input, q, 1, end);
    } else if input[q] == '\'' {
      StringAlone(input, q, 1, end);
    } else {
      assert end == q + 2 ==> w[1] == input[q + 1];
    }
  }

  lemma OneTokenText(w: Text, ty: TokenType)
    requires w != [] && AtToken(w, 0) && TokenAt(w, 0) == (ty, |w|)
    ensures RelexesAlone(Token(ty, w, LocationAt(w, 0), LocationAt(w, |w|)))
  {
    hide TokenAt, LocationAt;
    assert TriviaEnd(w, 0) == Some(0);
    var t := MakeToken(w, 0, |w|, ty);
    assert w[0..|w|] == w;
    assert ScanFrom(w, |w|).tokens == [MakeToken(w, |w|, |w|, EndOfFile)] by { assert TokenAt(w, |w|) == (EndOfFile, |w|); }
    assert ScanFrom(w, 0).tokens == [t] + ScanFrom(w, |w|).tokens;
  }

  lemma {:induction false} TriviaStopsAtToken(input: Text, pos: nat)
    requires pos <= |input| && TriviaEnd(input, pos).Some?
    ensures var q := TriviaEnd(input, pos).value; q == |input| || AtToken(input, q)
    decreases |input| - pos
  {
    if pos < |input| {
      if IsSpace(input[pos]) {
        TriviaStopsAtToken(input, pos + 1);
      } else if StartsLineComment(input, pos) {
        TriviaStopsAtToken(input, LineCommentEnd(input, pos + 2));
      } else if StartsBlockComment(input, pos) {
        TriviaStopsAtToken(input, BlockCommentEnd(input, pos + 2).value);
      }
    }
  }

  lemma {:induction false} ScanTiles(input: Text, pos: nat)
    requires pos <= |input| && ScanFrom(input, pos).complete
    ensures Tiles(input, pos, ScanFrom(input, pos).tokens)
    decreases |input| - pos
  {
    hide TriviaEnd, TokenAt, LocationAt, IsTrivia, RelexesAlone, AtToken;
    var tokens := ScanFrom(input, pos).tokens;
    var q := TriviaEnd(input, pos).value;
    var (ty, end) := TokenAt(input, q);
    SkippedTextIsTrivia(input, pos);
    if ty != EndOfFile {
      TriviaStopsAtToken(input, pos);
      TokenAlone(input, q);
      OneTokenText(input[q..end], ty);
      RelexingIgnoresPosition(Token(ty, input[q..end], LocationAt(input[q..end], 0), LocationAt(input[q..end], |input[q..end]|)), tokens[0]);
      TokenIsMaximal(input, q);
      ScanTiles(input, end);
      assert tokens[1..] == ScanFrom(input, end).tokens;
    }
  }

  lemma {:induction false} MaximalIdentifier(input: Text, pos: nat)
    requires pos <= |input|
    ensures !IsAlphaNumeric(CharAt(input, IdentifierEnd(input, pos)))
    decreases |input| - pos
  {
    if IdentifierEnd(input, pos) > pos {
      MaximalIdentifier(input, pos + 1);
    }
  }

  lemma {:induction false} MaximalNumber(input: Text, pos: nat)
    requires pos <= |input|
    ensures !IsDigit(CharAt(input, NumberEnd(input, pos)))
    decreases |input| - pos
  {
    if NumberEnd(input, pos) > pos {
      MaximalNumber(input, pos + 1);
    }
  }

  lemma {:induction false} MaximalString(input: Text, pos: nat)
    requires pos <= |input| && StringEnd(input, pos).Some?
    ensures CharAt(input, StringEnd(input, pos).value) != '\''
    decreases |input| - pos
  {
    if input[pos] != '\'' {
      MaximalString(input, pos + 1);
    } else if CharAt(input, pos + 1) == '\'' {
      MaximalString(input, pos + 2);
    }
  }

  lemma TokenIsMaximal(input: Text, q: nat)
    requires q < |input| && AtToken(input, q)
    ensures CannotGrow(input, MakeToken(input, q, TokenAt(input, q).1, TokenAt(input, q).0))
  {
    hide LookupIn, LocationAt, OperatorToken;
    var (ty, end) := TokenAt(input, q);
    var w := input[q..end];
    assert w[0] == input[q];
    if IsAlpha(input[q]) {
      MaximalIdentifier(input, q + 1);
    } else if IsDigit(input[q]) {
      MaximalNumber(input, q + 1);
    } else if input[q] == '\'' {
      if StringEnd(input, q + 1).Some? {
        MaximalString(input, q + 1);
      }
    } else {
      OperatorIsMaximal(input, q);
    }
  }

  lemma OperatorIsMaximal(input: Text, q: nat)
    requires q < |input| && AtToken(input, q) && !IsAlpha(input[q]) && !IsDigit(input[q]) && input[q] != '\''
    ensures var end := OperatorToken(input, q).1;
            q < end <= |input| && input[q..end][0] == input[q] && CanFollow(input[q..end], CharAt(input, end))
  {
    var w := input[q..OperatorToken(input, q).1];
    assert |w| == 1 ==> w == [input[q]];
  }

  lemma RelexingIgnoresPosition(a: Token, b: Token)
    requires RelexesAlone(a) && a.ty == b.ty && a.lexeme == b.lexeme
    ensures RelexesAlone(b)
  {
  }

  // A token that is one on its own and cannot grow is what the scanner finds there.
  lemma TiledTokenIsScanned(input: Text, t: Token)
    requires t.start.offset < t.end.offset <= |input| && t == MakeToken(input, t.start.offset, t.end.offset, t.ty)
    requires t.ty != EndOfFile && RelexesAlone(t) && CannotGrow(input, t)
    ensures AtToken(input, t.start.offset) && TokenAt(input, t.start.offset) == (t.ty, t.end.offset)
  {
    hide TokenAt, LocationAt, AtToken, CanFollow;
    var q, end, w := t.start.offset, t.end.offset, t.lexeme;
    AloneIsOneToken(t);
    if t.ty == Invalid && w[0] == '\'' {
      assert input[q..] == input[q..end] == w;
      assert input[q] == w[0];
      UnclosedInContext(input, q);
    } else {
      WordInContext(Lexeme(t.ty, w), input, q);
    }
  }

  lemma AloneIsOneToken(t: Token)
    requires RelexesAlone(t) && t.ty != EndOfFile && t.lexeme != []
    ensures AtToken(t.lexeme, 0) && TokenAt(t.lexeme, 0) == (t.ty, |t.lexeme|)
  {
    hide TokenAt, LocationAt, AtToken;
    var w := t.lexeme;
    var first := TokenizeText(w).value[0];
    TriviaStopsAtToken(w, 0);
    assert first == ScanFrom(w, 0).tokens[0];
    assert |first.lexeme| == first.end.offset - first.start.offset;
  }

  // An unclosed text at the end of the input.
  lemma UnclosedInContext(input: Text, q: nat)
    requires q < |input| && input[q] == '\''
    requires TokenAt(input[q..], 0) == (Invalid, |input| - q)
    ensures AtToken(input, q) && TokenAt(input, q) == (Invalid, |input|)
  {
    var w := input[q..];
    assert w[0] == input[q];
    if StringEnd(input, q + 1).Some? {
      TokenAlone(input, q);
      UnclosedElsewhere(input, q, 1);
    }
  }

  lemma {:induction false} UnclosedElsewhere(input: Text, q: nat, i: nat)
    requires q + i <= |input| && StringEnd(input[q..], i).None?
    ensures StringEnd(input, q + i).None?
    decreases |input| - q - i
  {
    var w := input[q..];
    if q + i < |input| {
      assert w[i] == input[q + i];
      assert i + 1 < |w| ==> w[i + 1] == input[q + i + 1];
      if w[i] != '\'' {
        UnclosedElsewhere(input, q, i + 1);
      } else if CharAt(w, i + 1) == '\'' {
        UnclosedElsewhere(input, q, i + 2);
      }
    }
  }

  lemma {:induction false} TiledTextScans(input: Text, pos: nat, tokens: seq<Token>)
    requires pos <= |input| && Tiles(input, pos, tokens)
    ensures ScanFrom(input, pos) == Scanned(tokens, true)
    decreases |tokens|
  {
    hide TriviaEnd, LocationAt, IsTrivia, RelexesAlone, AtToken, CannotGrow, OperatorToken, LookupKeyword;
    var t := tokens[0];
    var q := t.start.offset;
    if |tokens| > 1 {
      TiledTokenIsScanned(input, t);
      TriviaIsSkipped(input, pos, q);
      TiledTextScans(input, t.end.offset, tokens[1..]);
      assert tokens == [t] + tokens[1..];
    } else {
      TriviaIsSkipped(input, pos, q);
      assert tokens == [t];
    }
  }

  // Lexing succeeds with exactly the one token list that tiles the whole input.
  lemma TokensTileTheInput(input: Text, tokens: seq<Token>)
    ensures TokenizeText(input) == Ok(tokens) <==> Tiles(input, 0, tokens)
  {
    hide Tiles, ScanFrom;
    if TokenizeText(input) == Ok(tokens) {
      ScanTiles(input, 0);
    }
    if Tiles(input, 0, tokens) {
      TiledTextScans(input, 0, tokens);
    }
  }

  // Tokens are ordered and do not overlap.
  lemma {:induction false} TiledTokensAreOrdered(input: Text, pos: nat, tokens: seq<Token>, i: nat, j: nat)
    requires Tiles(input, pos, tokens) && i < j < |tokens|
    ensures pos <= tokens[i].start.offset < tokens[i].end.offset <= tokens[j].start.offset <= tokens[j].end.offset <= |input|
    decreases |tokens|
  {
    hide IsTrivia, RelexesAlone, LocationAt;
    var rest := tokens[1..];
    if i > 0 {
      TiledTokensAreOrdered(input, tokens[0].end.offset, rest, i - 1, j - 1);
      assert rest[i - 1] == tokens[i];
    } else if j > 1 {
      TiledTokensAreOrdered(input, tokens[0].end.offset, rest, 0, j - 1);
    }
    assert rest[j - 1] == tokens[j];
  }

  // ---------------------------------------------------------------- texts from words

  // What a parser sees of a token.
  datatype Lexeme = Lexeme(ty: TokenType, text: Text)

  function Lexemes(tokens: seq<Token>): (ls: seq<Lexeme>)
    ensures |ls| == |tokens|
    ensures forall i :: 0 <= i < |tokens| ==> ls[i] == Lexeme(tokens[i].ty, tokens[i].lexeme)
  {
    seq(|tokens|, i requires 0 <= i < |tokens| => Lexeme(tokens[i].ty, tokens[i].lexeme))
  }

  // The word is one valid token of its type.
  predicate IsWordOf(w: Lexeme) {
    w.text != [] && AtToken(w.text, 0) && TokenAt(w.text, 0) == (w.ty, |w.text|) && w.ty != Invalid
  }

  // The character does not lengthen the word or turn its start into a comment.
  predicate CanFollow(w: Text, next: ByteChar)
    requires w != []
  {
    if IsAlpha(w[0]) then !IsAlphaNumeric(next)
    else if IsDigit(w[0]) then !IsDigit(next)
    else if w[0] == '\'' then next != '\''
    else
      && (w == "-" ==> next != '-')
      && (w == "/" ==> next != '*')
      && (w == "<" ==> next != '=' && next != '>')
      && (w == ">" ==> next != '=')
      && (w == "!" ==> next != '=')
  }

  lemma {:induction false} IdentifierInContext(w: Text, input: Text, q: nat, i: nat)
    requires i <= |w| && q + |w| <= |input| && input[q..q + |w|] == w
    requires IdentifierEnd(w, i) == |w| && !IsAlphaNumeric(CharAt(input, q + |w|))
    ensures IdentifierEnd(input, q + i) == q + |w|
    decreases |w| - i
  {
    if i < |w| {
      assert input[q..q + |w|][i] == input[q + i];
      IdentifierInContext(w, input, q, i + 1);
    }
  }

  lemma {:induction false} NumberInContext(w: Text, input: Text, q: nat, i: nat)
    requires i <= |w| && q + |w| <= |input| && input[q..q + |w|] == w
    requires NumberEnd(w, i) == |w| && !IsDigit(CharAt(input, q + |w|))
    ensures NumberEnd(input, q + i) == q + |w|
    decreases |w| - i
  {
    if i < |w| {
      assert input[q..q + |w|][i] == input[q + i];
      NumberInContext(w, input, q, i + 1);
    }
  }

  lemma {:induction false} StringInContext(w: Text, input: Text, q: nat, i: nat)
    requires i <= |w| && q + |w| <= |input| && input[q..q + |w|] == w
    requires StringEnd(w, i) == Some(|w|) && CharAt(input, q + |w|) != '\''
    ensures StringEnd(input, q + i) == Some(q + |w|)
    decreases |w| - i
  {
    var v := input[q..q + |w|];
    assert v[i] == input[q + i];
    assert i + 1 < |w| ==> v[i + 1] == input[q + i + 1];
    if w[i] != '\'' {
      StringInContext(w, input, q, i + 1);
    } else if CharAt(w, i + 1) == '\'' {
      StringInContext(w, input, q, i + 2);
    }
  }

  // A word is scanned as itself wherever the next character may follow it.
  lemma WordInContext(w: Lexeme, input: Text, q: nat)
    requires w.text != [] && AtToken(w.text, 0) && TokenAt(w.text, 0) == (w.ty, |w.text|)
    requires w.ty == Invalid ==> w.text[0] != '\''
    requires q + |w.text| <= |input| && input[q..q + |w.text|] == w.text
    requires CanFollow(w.text, CharAt(input, q + |w.text|))
    ensures AtToken(input, q) && TokenAt(input, q) == (w.ty, q + |w.text|)
  {
    hide LookupKeyword;
    var v := input[q..q + |w.text|];
    assert v[0] == input[q];
    assert |v| > 1 ==> v[1] == input[q + 1];
    assert w.text[..|w.text|] == w.text;
    if IsAlpha(v[0]) {
      IdentifierInContext(w.text, input, q, 1);
    } else if IsDigit(v[0]) {
      NumberInContext(w.text, input, q, 1);
    } else if v[0] == '\'' {
      StringInContext(w.text, input, q, 1);
    } else {
      OperatorInContext(w, input, q);
    }
  }

  lemma OperatorInContext(w: Lexeme, input: Text, q: nat)
    requires w.text != [] && q + |w.text| <= |input| && input[q..q + |w.text|] == w.text
    requires !IsAlpha(w.text[0]) && !IsDigit(w.text[0]) && w.text[0] != '\''
    requires CanFollow(w.text, CharAt(input, q + |w.text|))
    requires OperatorToken(w.text, 0) == (w.ty, |w.text|) && AtToken(w.text, 0)
    ensures AtToken(input, q) && OperatorToken(input, q) == (w.ty, q + |w.text|)
  {
    var v := input[q..q + |w.text|];
    assert v[0] == input[q];
    assert |v| > 1 ==> v[1] == input[q + 1];
    if |w.text| == 1 {
      assert w.text == [w.text[0]];
      assert "-" == ['-'] && "/" == ['/'] && "<" == ['<'] && ">" == ['>'] && "!" == ['!'];
    }
  }

  // Words, each preceded by one blank or by nothing.
  datatype Spaced = Spaced(blank: bool, word: Lexeme)

  function Spell(items: seq<Spaced>): Text {
    if items == [] then []
    else (if items[0].blank then " " else "") + items[0].word.text + Spell(items[1..])
  }

  // Every word is valid and what follows it may follow it.
  predicate Spellable(items: seq<Spaced>) {
    items == [] ||
    (IsWordOf(items[0].word) && CanFollow(items[0].word.text, CharAt(Spell(items[1..]), 0)) && Spellable(items[1..]))
  }

  function Words(items: seq<Spaced>): (ws: seq<Lexeme>)
    ensures |ws| == |items|
  {
    if items == [] then [] else [items[0].word] + Words(items[1..])
  }

  const EOF_LEXEME := Lexeme(EndOfFile, [])

  lemma LexemesOfCons(t: Token, rest: seq<Token>)
    ensures Lexemes([t] + rest) == [Lexeme(t.ty, t.lexeme)] + Lexemes(rest)
  {
  }

  lemma CutSuffix(input: Text, pos: nat, gap: Text, w: Text, rest: Text)
    requires pos <= |input| && input[pos..] == gap + w + rest
    ensures var q := pos + |gap|; var end := q + |w|;
            && end <= |input| && input[pos..q] == gap && input[q..end] == w && input[end..] == rest
            && CharAt(input, end) == CharAt(rest, 0)
            && (gap == " " ==> input[pos] == ' ')
  {
    var q := pos + |gap|;
    var end := q + |w|;
    var s := input[pos..];
    assert s[..|gap|] == input[pos..q] && s[|gap|..|gap| + |w|] == input[q..end] && s[|gap| + |w|..] == input[end..];
    assert rest != [] ==> input[end..][0] == input[end];
    assert gap != [] ==> input[pos..q][0] == input[pos];
  }

  // One word in front of an already scanned rest.
  lemma ScanOneWord(input: Text, pos: nat, q: nat, w: Lexeme)
    requires pos <= q && q + |w.text| <= |input| && IsWordOf(w) && input[q..q + |w.text|] == w.text
    requires CanFollow(w.text, CharAt(input, q + |w.text|))
    requires q == pos || (q == pos + 1 && input[pos] == ' ')
    ensures var here, rest := ScanFrom(input, pos), ScanFrom(input, q + |w.text|);
            here.complete == rest.complete && Lexemes(here.tokens) == [w] + Lexemes(rest.tokens)
  {
    hide LocationAt, TokenAt, AtToken, CanFollow;
    var end := q + |w.text|;
    WordInContext(w, input, q);
    SkipBlank(input, pos, q);
    var t := MakeToken(input, q, end, w.ty);
    LexemesOfCons(t, ScanFrom(input, end).tokens);
    assert w.ty != EndOfFile by { assert TokenAt(w.text, 0).0 == w.ty; }
  }

  lemma ScanAtEnd(input: Text)
    ensures ScanFrom(input, |input|).complete && Lexemes(ScanFrom(input, |input|).tokens) == [EOF_LEXEME]
  {
    hide LocationAt, OperatorToken, LookupKeyword;
    assert TriviaEnd(input, |input|) == Some(|input|);
    var eof := MakeToken(input, |input|, |input|, EndOfFile);
    assert eof.lexeme == EOF_LEXEME.text;
    assert ScanFrom(input, |input|) == Scanned([eof], true);
    assert Lexemes([eof]) == [EOF_LEXEME];
  }

  lemma SpellCons(items: seq<Spaced>)
    ensures items == [] ==> Spell(items) == []
    ensures items != [] ==> Spell(items) == (if items[0].blank then " " else "") + items[0].word.text + Spell(items[1..])
  {
  }

  lemma {:induction false} SpelledWordsScan(input: Text, pos: nat, items: seq<Spaced>)
    requires pos <= |input| && input[pos..] == Spell(items) && Spellable(items)
    ensures ScanFrom(input, pos).complete
    ensures Lexemes(ScanFrom(input, pos).tokens) == Words(items) + [EOF_LEXEME]
    decreases |items|
  {
    hide ScanFrom, IsWordOf, CanFollow, CharAt, Lexemes, Spell;
    SpellCons(items);
    if items == [] {
      ScanAtEnd(input);
    } else {
      var w := items[0].word;
      var gap: Text := if items[0].blank then " " else "";
      CutSuffix(input, pos, gap, w.text, Spell(items[1..]));
      var q := pos + |gap|;
      ScanOneWord(input, pos, q, w);
      SpelledWordsScan(input, q + |w.text|, items[1..]);
      assert Words(items) + [EOF_LEXEME] == [w] + (Words(items[1..]) + [EOF_LEXEME]);
    }
  }

  lemma SkipBlank(input: Text, pos: nat, q: nat)
    requires q < |input| && AtToken(input, q)
    requires q == pos || (q == pos + 1 && input[pos] == ' ')
    ensures TriviaEnd(input, pos) == Some(q)
  {
    assert TriviaEnd(input, q) == Some(q);
  }

  // Every spelled list of words lexes back to exactly those words.
  lemma SpelledTextLexesBack(items: seq<Spaced>)
    requires Spellable(items)
    ensures TokenizeText(Spell(items)).Ok?
    ensures Lexemes(TokenizeText(Spell(items)).value) == Words(items) + [EOF_LEXEME]
  {
    hide ScanFrom;
    SpelledWordsScan(Spell(items), 0, items);
  }
}
