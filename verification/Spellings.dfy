/**
  Which texts are words of which token type, said without the scanner: keywords in any mix of
  cases, operators, digits, quoted texts and names. Nothing the parser does depends on how a
  keyword or an operator is spelled.
 */
module Spellings {
  import opened Common
  import opened Lexer
  import opened LexerTiling
  import opened Parser
  import opened Printer
  import opened SourceText

  // ---------------------------------------------------------------- letters in either case

  // The k-th capital letter may stand for the k-th small one.
  ghost predicate SameLetter(c: ByteChar, small: ByteChar) {
    c == small || exists k :: 0 <= k < 26 && c == UPPER_CASE[k] && small == LOWER_CASE[k]
  }

  // The word in any mix of cases.
  ghost predicate CaseVariant(word: Text, small: Text) {
    |word| == |small| && forall i :: 0 <= i < |word| ==> SameLetter(word[i], small[i])
  }

  lemma LetterFolds(c: ByteChar, small: ByteChar)
    requires 'a' <= small <= 'z'
    ensures FoldChar(c) == small <==> SameLetter(c, small)
  {
    FoldCharExactly(c);
    if c in UPPER_CASE {
      var k :| 0 <= k < 26 && c == UPPER_CASE[k];
      assert FoldChar(c) == LOWER_CASE[k];
      CapitalsAreNotSmall(k, small);
    }
  }

  lemma CapitalsAreNotSmall(k: nat, small: ByteChar)
    requires k < 26 && 'a' <= small <= 'z'
    ensures UPPER_CASE[k] != small
    ensures forall j :: 0 <= j < 26 && UPPER_CASE[j] == UPPER_CASE[k] ==> j == k
  {
    assert UPPER_CASE[k] as int == 'A' as int + k;
    assert forall j :: 0 <= j < 26 ==> UPPER_CASE[j] as int == 'A' as int + j;
  }

  // Folding gives a word of small letters exactly for its variants.
  lemma VariantsFold(word: Text, small: Text)
    requires AllLetters(small)
    ensures FoldIdentifierKey(word) == small <==> CaseVariant(word, small)
  {
    hide SameLetter, FoldChar;
    var key := FoldIdentifierKey(word);
    if |word| == |small| {
      forall i | 0 <= i < |word| ensures key[i] == small[i] <==> SameLetter(word[i], small[i]) {
        LetterFolds(word[i], small[i]);
      }
      assert key == small <==> forall i :: 0 <= i < |small| ==> key[i] == small[i];
    }
  }

  // ---------------------------------------------------------------- keywords

  lemma {:induction false} LookupSound(table: seq<(Text, TokenType)>, key: Text)
    requires LookupIn(table, key) != Identifier
    ensures exists i :: 0 <= i < |table| && table[i] == (key, LookupIn(table, key))
  {
    if table[0].0 != key {
      LookupSound(table[1..], key);
      var i :| 0 <= i < |table[1..]| && table[1..][i] == (key, LookupIn(table[1..], key));
      assert table[i + 1] == (key, LookupIn(table, key));
    } else {
      assert table[0] == (key, LookupIn(table, key));
    }
  }

  lemma KeywordTypes(i: nat)
    requires i < |KEYWORDS|
    ensures KeywordIndex(KEYWORDS[i].1) == Some(i) && KEYWORDS[i].0 == Spelling(KEYWORDS[i].1)
  {
  }

  lemma KeywordLookup(word: Text, ty: TokenType)
    requires KeywordIndex(ty).Some?
    ensures LookupKeyword(word) == ty <==> CaseVariant(word, Spelling(ty))
  {
    hide Spelling, KeywordIndex, LookupIn, Code, CaseVariant;
    KeywordTokens(ty);
    SpellingIsKeyword(ty);
    SpellingLetters(ty);
    VariantsFold(word, Spelling(ty));
    var key := FoldIdentifierKey(word);
    if LookupKeyword(word) == ty {
      NoIdentifierKeyword(ty);
      LookupSound(KEYWORDS, key);
      var i :| 0 <= i < |KEYWORDS| && KEYWORDS[i] == (key, ty);
      KeywordTypes(i);
    }
    if key == Spelling(ty) {
      KeywordCodes();
      KeywordRange(ty);
      LookupByCode(KEYWORDS, CODES, KeywordIndex(ty).value);
    }
  }

  lemma SpellingLetters(ty: TokenType)
    requires KeywordIndex(ty).Some?
    ensures Spelling(ty) != [] && AllLetters(Spelling(ty))
  {
    hide Spelling, KeywordIndex, AllLetters;
    SpellingIsKeyword(ty);
    KeywordRange(ty);
    KeywordLetters();
  }

  lemma NoIdentifierKeyword(ty: TokenType)
    requires KeywordIndex(ty).Some?
    ensures ty != Identifier && IsWord(ty)
  {
  }

  lemma VariantIsAlphabetic(word: Text, small: Text)
    requires AllLetters(small) && CaseVariant(word, small)
    ensures forall i :: 0 <= i < |word| ==> IsAlpha(word[i])
  {
    hide SameLetter;
    forall i | 0 <= i < |word| ensures IsAlpha(word[i]) {
      LetterFolds(word[i], small[i]);
    }
  }

  // The words of a keyword's type are its spellings in any mix of cases, and no others.
  lemma KeywordWordsExactly(word: Text, ty: TokenType)
    requires KeywordIndex(ty).Some?
    ensures IsWordOf(Lexeme(ty, word)) <==> CaseVariant(word, Spelling(ty))
  {
    hide Spelling, KeywordIndex, LookupKeyword, CaseVariant, AllLetters, IsAlpha, IsWordOf;
    NoIdentifierKeyword(ty);
    KeywordTokens(ty);
    KeywordLookup(word, ty);
    SpellingLetters(ty);
    AlphabeticWords(word, ty);
    if CaseVariant(word, Spelling(ty)) {
      VariantIsAlphabetic(word, Spelling(ty));
      VariantLength(word, Spelling(ty));
    }
  }

  // A word of a keyword's or a name's type is looked up.
  lemma AlphabeticWords(word: Text, ty: TokenType)
    requires IsWord(ty)
    ensures IsWordOf(Lexeme(ty, word)) ==> LookupKeyword(word) == ty
    ensures LookupKeyword(word) == ty && word != [] && (forall i :: 0 <= i < |word| ==> IsAlpha(word[i])) ==> IsWordOf(Lexeme(ty, word))
  {
    hide LookupKeyword, IdentifierEnd, OperatorToken, StringEnd, NumberEnd;
    if word != [] {
      assert word[0..|word|] == word;
      NameRunsOut(word, 1);
      OperatorsAreNoWords(word);
    }
  }

  lemma VariantLength(word: Text, small: Text)
    requires CaseVariant(word, small)
    ensures |word| == |small|
  {
  }

  lemma OperatorsAreNoWords(word: Text)
    requires word != []
    ensures !IsWord(OperatorToken(word, 0).0)
  {
  }

  // ---------------------------------------------------------------- the other words

  // Operators have one spelling each, except that inequality is also <>.
  lemma OperatorWordsExactly(word: Text, ty: TokenType)
    requires IsOperator(ty)
    ensures IsWordOf(Lexeme(ty, word)) <==> word == Spelling(ty) || (ty == NotEqualSign && word == "<>")
  {
    hide OperatorToken, Spelling, AtToken, IsWordOf, TokenAt;
    WordsAreNoOperators(ty);
    OperatorWordIsToken(word, ty);
    if |word| == 1 {
      assert word == [word[0]];
      SingleOperator(word[0], ty);
    } else if |word| == 2 {
      assert word == [word[0], word[1]];
      DoubleOperator(word[0], word[1], ty);
    } else if word != [] {
      OperatorsAreShort(word);
    }
    SpellingIsShort(ty);
  }

  lemma OperatorWordIsToken(word: Text, ty: TokenType)
    requires IsOperator(ty)
    ensures IsWordOf(Lexeme(ty, word)) <==> word != [] && AtToken(word, 0) && Unlettered(word[0]) && OperatorToken(word, 0) == (ty, |word|)
  {
    hide LookupKeyword, IdentifierEnd, StringEnd, NumberEnd, OperatorToken;
    WordsAreNoOperators(ty);
  }

  predicate Unlettered(c: ByteChar) {
    !IsAlpha(c) && !IsDigit(c) && c != '\''
  }

  lemma SingleOperator(c: ByteChar, ty: TokenType)
    requires IsOperator(ty)
    ensures AtToken([c], 0) && Unlettered(c) && OperatorToken([c], 0) == (ty, 1) <==> Spelling(ty) == [c]
  {
  }

  lemma DoubleOperator(c: ByteChar, d: ByteChar, ty: TokenType)
    requires IsOperator(ty)
    ensures AtToken([c, d], 0) && Unlettered(c) && OperatorToken([c, d], 0) == (ty, 2) <==>
            Spelling(ty) == [c, d] || (ty == NotEqualSign && "<>" == [c, d])
  {
  }

  lemma OperatorsAreShort(word: Text)
    requires |word| > 2
    ensures OperatorToken(word, 0).1 <= 2
  {
  }

  lemma SpellingIsShort(ty: TokenType)
    requires IsOperator(ty)
    ensures 1 <= |Spelling(ty)| <= 2
  {
  }

  lemma WordsAreNoOperators(ty: TokenType)
    requires IsOperator(ty)
    ensures !IsWord(ty) && ty != IntegerToken && ty != StringToken && ty != Invalid
  {
  }

  predicate AllDecimal(word: Text) {
    forall i :: 0 <= i < |word| ==> word[i] in "0123456789"
  }

  lemma {:induction false} NumberRunsOut(word: Text, i: nat)
    requires i <= |word|
    ensures NumberEnd(word, i) == |word| <==> forall k :: i <= k < |word| ==> IsDigit(word[k])
    decreases |word| - i
  {
    if i < |word| && IsDigit(word[i]) {
      NumberRunsOut(word, i + 1);
    }
  }

  lemma DigitIsDecimal(c: ByteChar)
    ensures IsDigit(c) <==> c in "0123456789"
  {
    if IsDigit(c) {
      assert "0123456789"[c as int - '0' as int] == c;
    }
  }

  lemma IntegerWordsExactly(word: Text)
    ensures IsWordOf(Lexeme(IntegerToken, word)) <==> word != [] && AllDecimal(word)
  {
    hide LookupKeyword, IdentifierEnd, StringEnd, NumberEnd;
    forall i | 0 <= i < |word| ensures IsDigit(word[i]) <==> word[i] in "0123456789" {
      DigitIsDecimal(word[i]);
    }
    if word != [] {
      NumberRunsOut(word, 1);
      OperatorIsNoInteger(word);
      assert IntegerToken != Identifier && !IsWord(IntegerToken);
    }
  }

  lemma OperatorIsNoInteger(word: Text)
    requires word != []
    ensures OperatorToken(word, 0).0 != IntegerToken && OperatorToken(word, 0).0 != StringToken && OperatorToken(word, 0).0 != Identifier
  {
  }

  lemma {:induction false} StringEndsQuoted(word: Text, i: nat) returns (s: Text)
    requires i <= |word| && StringEnd(word, i) == Some(|word|)
    ensures word[i..] == QuoteBody(s) + "'"
    decreases |word| - i
  {
    var tail := word[i..];
    if word[i] != '\'' {
      var rest := StringEndsQuoted(word, i + 1);
      s := [word[i]] + rest;
      assert tail == [word[i]] + word[i + 1..];
      assert s[1..] == rest;
    } else if CharAt(word, i + 1) == '\'' {
      var rest := StringEndsQuoted(word, i + 2);
      s := ['\''] + rest;
      assert tail == "''" + word[i + 2..];
      assert s[1..] == rest;
    } else {
      s := [];
      assert |tail| == 1;
    }
  }

  // The words of the string type are the quoted texts, and no others.
  lemma StringWordsExactly(word: Text)
    ensures IsWordOf(Lexeme(StringToken, word)) <==> exists s :: word == Quote(s)
  {
    hide LookupKeyword, IdentifierEnd, StringEnd, NumberEnd, QuoteBody;
    forall s | word == Quote(s) ensures IsWordOf(Lexeme(StringToken, word)) {
      QuotedIsWord(s);
    }
    if IsWordOf(Lexeme(StringToken, word)) {
      OperatorIsNoInteger(word);
      assert !IsWord(StringToken);
      assert word[0] == '\'' && StringEnd(word, 1) == Some(|word|);
      var s := StringEndsQuoted(word, 1);
      assert word == Quote(s);
    }
  }

  lemma {:induction false} UnendedIsQuoted(word: Text, i: nat) returns (s: Text)
    requires i <= |word| && StringEnd(word, i) == None
    ensures word[i..] == QuoteBody(s)
    decreases |word| - i
  {
    var tail := word[i..];
    if i == |word| {
      s := [];
    } else if word[i] != '\'' {
      var rest := UnendedIsQuoted(word, i + 1);
      s := [word[i]] + rest;
      assert tail == [word[i]] + word[i + 1..];
      assert s[1..] == rest;
    } else {
      var rest := UnendedIsQuoted(word, i + 2);
      s := ['\''] + rest;
      assert tail == "''" + word[i + 2..];
      assert s[1..] == rest;
    }
  }

  lemma {:induction false} QuotedBodyNeverEnds(text: Text, i: nat, s: Text)
    requires i <= |text| && text[i..] == QuoteBody(s)
    ensures StringEnd(text, i) == None
    decreases |s|
  {
    var tail := text[i..];
    if s == [] {
      assert |tail| == 0;
    } else if s[0] == '\'' {
      assert tail == "''" + QuoteBody(s[1..]);
      assert tail[0] == text[i] && tail[1] == text[i + 1] && text[i + 2..] == tail[2..];
      QuotedBodyNeverEnds(text, i + 2, s[1..]);
    } else {
      assert tail == [s[0]] + QuoteBody(s[1..]);
      assert tail[0] == text[i] && text[i + 1..] == tail[1..];
      QuotedBodyNeverEnds(text, i + 1, s[1..]);
    }
  }

  // An opening quote whose text is never closed.
  ghost predicate Unclosed(word: Text) {
    word != [] && word[0] == '\'' && exists s :: word[1..] == QuoteBody(s)
  }

  // A character that begins no token and is no blank; a lone ! is one of them.
  predicate Foreign(c: ByteChar) {
    !NameCharacter(c) && !IsBlankCharacter(c) && c !in "+-*/=<>(),.;'"
  }

  // The words of no valid type: foreign characters one by one, and texts that are never closed.
  lemma InvalidWordsExactly(word: Text)
    ensures word != [] && AtToken(word, 0) && TokenAt(word, 0) == (Invalid, |word|) <==>
            (|word| == 1 && Foreign(word[0])) || Unclosed(word)
  {
    hide LookupKeyword, IdentifierEnd, StringEnd, NumberEnd, QuoteBody, NameCharacter, OperatorToken;
    if word != [] {
      NameCharacterExactly(word[0]);
      DigitIsDecimal(word[0]);
      OperatorIsInvalid(word);
      WordIsNotInvalid(word);
      if word[0] == '\'' {
        if StringEnd(word, 1) == None {
          var s := UnendedIsQuoted(word, 1);
        }
        forall s | word[1..] == QuoteBody(s) ensures StringEnd(word, 1) == None {
          QuotedBodyNeverEnds(word, 1, s);
        }
      }
    }
  }

  lemma WordIsNotInvalid(word: Text)
    ensures !IsWord(Invalid) && IntegerToken != Invalid && StringToken != Invalid
  {
  }

  lemma OperatorIsInvalid(word: Text)
    requires word != []
    ensures word[0] in "+-*/=<>(),.;" ==> OperatorToken(word, 0).0 != Invalid
    ensures !(word[0] in "+-*/=<>(),.;") && (word[0] == '!' ==> |word| == 1 || word[1] != '=') ==> OperatorToken(word, 0) == (Invalid, 1)
    ensures word[0] == '!' && |word| > 1 && word[1] == '=' ==> OperatorToken(word, 0).0 != Invalid
  {
  }

  predicate NameCharacter(c: ByteChar) {
    c in UPPER_CASE || c in LOWER_CASE || c == '_' || c in "0123456789"
  }

  lemma NameCharacterExactly(c: ByteChar)
    ensures IsAlphaNumeric(c) <==> NameCharacter(c)
    ensures IsAlpha(c) <==> NameCharacter(c) && c !in "0123456789"
  {
    hide UPPER_CASE, LOWER_CASE;
    DigitIsDecimal(c);
    CapitalLetter(c);
    SmallLetter(c);
  }

  lemma CapitalLetter(c: ByteChar)
    ensures 'A' <= c <= 'Z' <==> c in UPPER_CASE
  {
    assert forall k :: 0 <= k < 26 ==> UPPER_CASE[k] as int == 'A' as int + k;
    if 'A' <= c <= 'Z' {
      assert UPPER_CASE[c as int - 'A' as int] == c;
    }
  }

  lemma SmallLetter(c: ByteChar)
    ensures 'a' <= c <= 'z' <==> c in LOWER_CASE
  {
    assert forall k :: 0 <= k < 26 ==> LOWER_CASE[k] as int == 'a' as int + k;
    if 'a' <= c <= 'z' {
      assert LOWER_CASE[c as int - 'a' as int] == c;
    }
  }

  // Names are letters, digits and underscores, begin with no digit, and are no keyword in any
  // mix of cases.
  lemma NameWordsExactly(name: Text)
    ensures IsWordOf(Lexeme(Identifier, name)) <==>
            && name != [] && name[0] !in "0123456789" && (forall i :: 0 <= i < |name| ==> NameCharacter(name[i]))
            && forall ty :: KeywordIndex(ty).Some? ==> !CaseVariant(name, Spelling(ty))
  {
    hide LookupKeyword, IsAlphaNumeric, IsAlpha, NameCharacter, IsWordOf, CaseVariant, Spelling, KeywordIndex;
    NameIsWordExactly(name);
    forall i | 0 <= i < |name| ensures IsAlphaNumeric(name[i]) <==> NameCharacter(name[i]) {
      NameCharacterExactly(name[i]);
    }
    if name != [] {
      NameCharacterExactly(name[0]);
    }
    forall ty | KeywordIndex(ty).Some? ensures LookupKeyword(name) == ty <==> CaseVariant(name, Spelling(ty)) {
      KeywordLookup(name, ty);
    }
    WordTypes(LookupKeyword(name));
    forall ty | KeywordIndex(ty).Some? ensures ty != Identifier {
      NoIdentifierKeyword(ty);
    }
  }

  lemma WordTypes(ty: TokenType)
    requires IsWord(ty)
    ensures ty == Identifier || KeywordIndex(ty).Some?
  {
  }

  // ---------------------------------------------------------------- type names

  // The types a column may be given, in any mix of cases.
  lemma TypeNamesExactly(t: Lexeme)
    ensures ParseTypeName(t) == Some(IntType) <==> t.ty == Identifier && (CaseVariant(t.text, "int") || CaseVariant(t.text, "integer"))
    ensures ParseTypeName(t) == Some(TextType) <==> t.ty == Identifier && CaseVariant(t.text, "text")
    ensures ParseTypeName(t) == Some(BoolType) <==> t.ty == Identifier && (CaseVariant(t.text, "bool") || CaseVariant(t.text, "boolean"))
  {
    hide CaseVariant;
    VariantsFold(t.text, "int");
    VariantsFold(t.text, "integer");
    VariantsFold(t.text, "text");
    VariantsFold(t.text, "bool");
    VariantsFold(t.text, "boolean");
  }
}
