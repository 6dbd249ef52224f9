/**
  main.cpp: the CLI cuts a script into statements with a character-level automaton that knows
  strings and comments but no tokens. It is proved to cut exactly where the lexer sees its
  first semicolon token, and to give the same statements however the script arrives.
 */
module Splitter {
  import opened Common
  import opened Lexer

  // in_string, in_line_comment and in_block_comment are never set together.
  datatype Mode = Normal | InString | InLineComment | InBlockComment

  // find_statement_terminator from index i on: the offset just after the terminator.
  function FindFrom(text: Text, i: nat, mode: Mode): (end: Option<nat>)
    requires i <= |text| + 1
    ensures end.Some? ==> i < end.value <= |text|
    decreases |text| + 1 - i
  {
    if i >= |text| then None
    else
      var c, next := text[i], CharAt(text, i + 1);
      match mode
      case InString =>
        if c == '\'' && next == '\'' then FindFrom(text, i + 2, InString)
        else FindFrom(text, i + 1, if c == '\'' then Normal else InString)
      case InLineComment =>
        FindFrom(text, i + 1, if c == '\n' || c == '\r' then Normal else InLineComment)
      case InBlockComment =>
        if c == '*' && next == '/' then FindFrom(text, i + 2, Normal)
        else FindFrom(text, i + 1, InBlockComment)
      case Normal =>
        if c == '\'' then FindFrom(text, i + 1, InString)
        else if c == '-' && next == '-' then FindFrom(text, i + 2, InLineComment)
        else if c == '/' && next == '*' then FindFrom(text, i + 2, InBlockComment)
        else if c == ';' then Some(i + 1)
        else FindFrom(text, i + 1, Normal)
  }

  function FindTerminator(text: Text): (end: Option<nat>)
    ensures end.Some? ==> 0 < end.value <= |text|
  {
    FindFrom(text, 0, Normal)
  }

  // ---------------------------------------------------------------- agreement with the lexer

  // Where the first semicolon token of a scan ends.
  function FirstSemicolon(tokens: seq<Token>): Option<nat> {
    if tokens == [] then None
    else if tokens[0].ty == Semicolon then Some(tokens[0].end.offset)
    else FirstSemicolon(tokens[1..])
  }

  lemma {:induction false} LineCommentAgrees(text: Text, i: nat)
    requires i <= |text|
    ensures FindFrom(text, i, InLineComment) == FindFrom(text, LineCommentEnd(text, i), Normal)
    decreases |text| - i
  {
    if i < |text| && !IsLineEnd(text[i]) {
      LineCommentAgrees(text, i + 1);
    }
  }

  lemma {:induction false} BlockCommentAgrees(text: Text, i: nat)
    requires i <= |text|
    ensures FindFrom(text, i, InBlockComment) ==
            var end := BlockCommentEnd(text, i); if end.None? then None else FindFrom(text, end.value, Normal)
    decreases |text| - i
  {
    if i < |text| && !EndsBlockComment(text, i) {
      BlockCommentAgrees(text, i + 1);
    }
  }

  lemma {:induction false} StringAgrees(text: Text, i: nat)
    requires i <= |text|
    ensures FindFrom(text, i, InString) ==
            var end := StringEnd(text, i); if end.None? then None else FindFrom(text, end.value, Normal)
    decreases |text| - i
  {
    if i < |text| {
      if text[i] != '\'' {
        StringAgrees(text, i + 1);
      } else if CharAt(text, i + 1) == '\'' {
        StringAgrees(text, i + 2);
      }
    }
  }

  lemma {:induction false} TriviaAgrees(text: Text, i: nat)
    requires i <= |text|
    ensures FindFrom(text, i, Normal) ==
            var end := TriviaEnd(text, i); if end.None? then None else FindFrom(text, end.value, Normal)
    decreases |text| - i
  {
    if i < |text| {
      if IsSpace(text[i]) {
        TriviaAgrees(text, i + 1);
      } else if StartsLineComment(text, i) {
        LineCommentAgrees(text, i + 2);
        TriviaAgrees(text, LineCommentEnd(text, i + 2));
      } else if StartsBlockComment(text, i) {
        BlockCommentAgrees(text, i + 2);
        if BlockCommentEnd(text, i + 2).Some? {
          TriviaAgrees(text, BlockCommentEnd(text, i + 2).value);
        }
      }
    }
  }

  // Characters no automaton state cares about outside strings and comments.
  predicate IsOrdinary(c: ByteChar) {
    c != '\'' && c != '-' && c != '/' && c != ';'
  }

  lemma {:induction false} IdentifierAgrees(text: Text, i: nat)
    requires i <= |text|
    ensures FindFrom(text, i, Normal) == FindFrom(text, IdentifierEnd(text, i), Normal)
    decreases |text| - i
  {
    if i < |text| && IsAlphaNumeric(text[i]) {
      IdentifierAgrees(text, i + 1);
    }
  }

  lemma {:induction false} NumberAgrees(text: Text, i: nat)
    requires i <= |text|
    ensures FindFrom(text, i, Normal) == FindFrom(text, NumberEnd(text, i), Normal)
    decreases |text| - i
  {
    if i < |text| && IsDigit(text[i]) {
      NumberAgrees(text, i + 1);
    }
  }

  // The automaton crosses a token that is not a semicolon, and stops right after one that is.
  lemma TokenAgrees(text: Text, i: nat)
    requires i <= |text| && TriviaEnd(text, i) == Some(i)
    ensures var (ty, end) := TokenAt(text, i);
            FindFrom(text, i, Normal) == if ty == Semicolon then Some(end) else FindFrom(text, end, Normal)
  {
    hide LookupKeyword, StringEnd, OperatorToken;
    if i < |text| {
      if IsAlpha(text[i]) {
        IdentifierAgrees(text, i + 1);
      } else if IsDigit(text[i]) {
        NumberAgrees(text, i + 1);
      } else if text[i] == '\'' {
        StringAgrees(text, i + 1);
      } else {
        OperatorAgrees(text, i);
      }
    }
  }

  lemma OperatorAgrees(text: Text, i: nat)
    requires i < |text| && text[i] != '\'' && !StartsLineComment(text, i) && !StartsBlockComment(text, i)
    ensures var (ty, end) := OperatorToken(text, i);
            FindFrom(text, i, Normal) == if ty == Semicolon then Some(end) else FindFrom(text, end, Normal)
  {
    var (ty, end) := OperatorToken(text, i);
    if end == i + 2 {
      assert IsOrdinary(text[i]) && IsOrdinary(text[i + 1]);
      assert FindFrom(text, i, Normal) == FindFrom(text, i + 1, Normal);
      assert FindFrom(text, i + 1, Normal) == FindFrom(text, i + 2, Normal);
    }
  }

  lemma {:induction false} TriviaEndIsFixed(text: Text, i: nat)
    requires i <= |text| && TriviaEnd(text, i).Some?
    ensures TriviaEnd(text, TriviaEnd(text, i).value) == TriviaEnd(text, i)
    decreases |text| - i
  {
    if i < |text| {
      if IsSpace(text[i]) {
        TriviaEndIsFixed(text, i + 1);
      } else if StartsLineComment(text, i) {
        TriviaEndIsFixed(text, LineCommentEnd(text, i + 2));
      } else if StartsBlockComment(text, i) {
        TriviaEndIsFixed(text, BlockCommentEnd(text, i + 2).value);
      }
    }
  }

  lemma {:induction false} SplitterFollowsScan(text: Text, i: nat)
    requires i <= |text|
    ensures FindFrom(text, i, Normal) == FirstSemicolon(ScanFrom(text, i).tokens)
    decreases |text| - i
  {
    hide TokenAt, TriviaEnd, FindFrom, LocationAt;
    TriviaAgrees(text, i);
    if TriviaEnd(text, i).Some? {
      TriviaEndIsFixed(text, i);
      var start := TriviaEnd(text, i).value;
      TokenAgrees(text, start);
      var (ty, end) := TokenAt(text, start);
      if ty == EndOfFile {
        NothingAtEnd(text);
        assert ScanFrom(text, i).tokens[1..] == [];
      } else {
        SplitterFollowsScan(text, end);
        assert ScanFrom(text, i).tokens[1..] == ScanFrom(text, end).tokens;
      }
    }
  }

  lemma NothingAtEnd(text: Text)
    ensures FindFrom(text, |text|, Normal) == None
  {
  }

  // For every text: the splitter finds offset k exactly when the first semicolon token the
  // lexer scans ends at k, and finds nothing exactly when the scan reaches the end of the
  // input or an unterminated comment without one.
  lemma SplitterAgreesWithLexer(text: Text)
    ensures FindTerminator(text) == FirstSemicolon(ScanFrom(text, 0).tokens)
  {
    SplitterFollowsScan(text, 0);
  }

  lemma {:induction false} FirstSemicolonIsFirst(tokens: seq<Token>, k: nat)
    ensures FirstSemicolon(tokens) == Some(k) <==>
            exists j :: 0 <= j < |tokens| && tokens[j].ty == Semicolon && tokens[j].end.offset == k
                        && forall m :: 0 <= m < j ==> tokens[m].ty != Semicolon
    ensures FirstSemicolon(tokens).None? <==> forall j :: 0 <= j < |tokens| ==> tokens[j].ty != Semicolon
  {
    if tokens != [] {
      FirstSemicolonIsFirst(tokens[1..], k);
      assert forall j :: 0 < j < |tokens| ==> tokens[j] == tokens[1..][j - 1];
      if tokens[0].ty != Semicolon && FirstSemicolon(tokens) == Some(k) {
        var j :| 0 <= j < |tokens[1..]| && tokens[1..][j].ty == Semicolon && tokens[1..][j].end.offset == k
                 && forall m :: 0 <= m < j ==> tokens[1..][m].ty != Semicolon;
        assert tokens[j + 1].ty == Semicolon;
        assert forall m :: 0 < m < j + 1 ==> tokens[m] == tokens[1..][m - 1];
      }
      if j :| 0 < j < |tokens| && tokens[j].ty == Semicolon && tokens[j].end.offset == k
              && forall m :: 0 <= m < j ==> tokens[m].ty != Semicolon {
        assert tokens[1..][j - 1] == tokens[j];
        assert forall m :: 0 <= m < j - 1 ==> tokens[1..][m] == tokens[m + 1];
      }
    }
  }

  // ---------------------------------------------------------------- splitting a buffer

  // The automaton never looks past the terminator it finds.
  lemma {:induction false} FindIgnoresWhatFollows(text: Text, more: Text, i: nat, mode: Mode)
    requires i <= |text| && FindFrom(text, i, mode).Some?
    ensures FindFrom(text + more, i, mode) == FindFrom(text, i, mode)
    decreases |text| - i
  {
    var all := text + more;
    assert all[i] == text[i] && (i + 1 < |text| ==> CharAt(all, i + 1) == CharAt(text, i + 1));
    var c, next := text[i], CharAt(text, i + 1);
    if i + 1 == |text| {
      assert mode.Normal? && c == ';';
    } else {
      match mode {
        case InString =>
          if c == '\'' && next == '\'' { FindIgnoresWhatFollows(text, more, i + 2, InString); }
          else { FindIgnoresWhatFollows(text, more, i + 1, if c == '\'' then Normal else InString); }
        case InLineComment =>
          FindIgnoresWhatFollows(text, more, i + 1, if c == '\n' || c == '\r' then Normal else InLineComment);
        case InBlockComment =>
          if c == '*' && next == '/' { FindIgnoresWhatFollows(text, more, i + 2, Normal); }
          else { FindIgnoresWhatFollows(text, more, i + 1, InBlockComment); }
        case Normal =>
          if c == '\'' { FindIgnoresWhatFollows(text, more, i + 1, InString); }
          else if c == '-' && next == '-' { FindIgnoresWhatFollows(text, more, i + 2, InLineComment); }
          else if c == '/' && next == '*' { FindIgnoresWhatFollows(text, more, i + 2, InBlockComment); }
          else if c != ';' { FindIgnoresWhatFollows(text, more, i + 1, Normal); }
      }
    }
  }

  lemma {:induction false} FindInPrefix(text: Text, i: nat, mode: Mode, k: nat)
    requires i <= |text| && FindFrom(text, i, mode) == Some(k)
    ensures FindFrom(text[..k], i, mode) == Some(k)
    decreases |text| - i
  {
    var cut := text[..k];
    assert forall j :: 0 <= j < k ==> cut[j] == text[j];
    var c, next := text[i], CharAt(text, i + 1);
    match mode {
      case InString =>
        if c == '\'' && next == '\'' { FindInPrefix(text, i + 2, InString, k); }
        else { FindInPrefix(text, i + 1, if c == '\'' then Normal else InString, k); }
      case InLineComment =>
        FindInPrefix(text, i + 1, if c == '\n' || c == '\r' then Normal else InLineComment, k);
      case InBlockComment =>
        if c == '*' && next == '/' { FindInPrefix(text, i + 2, Normal, k); }
        else { FindInPrefix(text, i + 1, InBlockComment, k); }
      case Normal =>
        if c == '\'' { FindInPrefix(text, i + 1, InString, k); }
        else if c == '-' && next == '-' { FindInPrefix(text, i + 2, InLineComment, k); }
        else if c == '/' && next == '*' { FindInPrefix(text, i + 2, InBlockComment, k); }
        else if c != ';' { FindInPrefix(text, i + 1, Normal, k); }
    }
  }

  // An extracted statement, lexed alone, has its first semicolon at its very end.
  lemma StatementEndsAtItsFirstSemicolon(text: Text, k: nat)
    requires FindTerminator(text) == Some(k)
    ensures FirstSemicolon(ScanFrom(text[..k], 0).tokens) == Some(k)
  {
    FindInPrefix(text, 0, Normal, k);
    SplitterAgreesWithLexer(text[..k]);
  }

  // The extraction loop: complete statements in order, and what is left.
  datatype Split = Split(statements: seq<Text>, rest: Text)

  function SplitText(buffer: Text): Split
    decreases |buffer|
  {
    var end := FindTerminator(buffer);
    if end.None? then Split([], buffer)
    else
      var tail := SplitText(buffer[end.value..]);
      Split([buffer[..end.value]] + tail.statements, tail.rest)
  }

  function Concat(pieces: seq<Text>): Text {
    if pieces == [] then [] else pieces[0] + Concat(pieces[1..])
  }

  // The read-eval loop: append a piece, extract every complete statement, go on.
  function Feed(buffer: Text, pieces: seq<Text>): Split
    decreases |pieces|
  {
    if pieces == [] then Split([], buffer)
    else
      var now := SplitText(buffer + pieces[0]);
      var later := Feed(now.rest, pieces[1..]);
      Split(now.statements + later.statements, later.rest)
  }

  // Nothing is lost, invented or reordered.
  lemma {:induction false} SplittingConserves(buffer: Text)
    ensures var s := SplitText(buffer); Concat(s.statements) + s.rest == buffer
    ensures FindTerminator(SplitText(buffer).rest) == None
    decreases |buffer|
  {
    hide FindFrom;
    var end := FindTerminator(buffer);
    if end.Some? {
      SplittingConserves(buffer[end.value..]);
      var s := SplitText(buffer);
      assert s.statements[1..] == SplitText(buffer[end.value..]).statements;
      assert buffer == buffer[..end.value] + buffer[end.value..];
    }
  }

  lemma {:induction false} SplitOfExtendedBuffer(buffer: Text, more: Text)
    ensures var first := SplitText(buffer);
            var second := SplitText(first.rest + more);
            SplitText(buffer + more) == Split(first.statements + second.statements, second.rest)
    decreases |buffer|
  {
    hide FindFrom;
    var end := FindTerminator(buffer);
    if end.Some? {
      var k := end.value;
      FindIgnoresWhatFollows(buffer, more, 0, Normal);
      assert (buffer + more)[..k] == buffer[..k] && (buffer + more)[k..] == buffer[k..] + more;
      SplitOfExtendedBuffer(buffer[k..], more);
      var tail := SplitText(buffer[k..]);
      var second := SplitText(tail.rest + more);
      assert [buffer[..k]] + (tail.statements + second.statements) == ([buffer[..k]] + tail.statements) + second.statements;
    } else {
      assert [] + SplitText(buffer + more).statements == SplitText(buffer + more).statements;
    }
  }

  // Feeding a script in arbitrary pieces yields the statements and remainder of feeding it whole.
  lemma {:induction false} PiecesDoNotMatter(buffer: Text, pieces: seq<Text>)
    requires FindTerminator(buffer) == None
    ensures Feed(buffer, pieces) == SplitText(buffer + Concat(pieces))
    decreases |pieces|
  {
    hide FindFrom, FindTerminator;
    if pieces == [] {
      assert buffer + [] == buffer;
    } else {
      var now := SplitText(buffer + pieces[0]);
      SplittingConserves(buffer + pieces[0]);
      PiecesDoNotMatter(now.rest, pieces[1..]);
      SplitOfExtendedBuffer(buffer + pieces[0], Concat(pieces[1..]));
      assert (buffer + pieces[0]) + Concat(pieces[1..]) == buffer + Concat(pieces);
    }
  }

  // ---------------------------------------------------------------- the code

  method FindStatementTerminator(buffer: Text) returns (end: Option<nat>)
    ensures end == FindTerminator(buffer)
  {
    var inString, inLineComment, inBlockComment := false, false, false;
    var index := 0;
    while index < |buffer|
      invariant index <= |buffer| + 1
      invariant !(inString && inLineComment) && !(inString && inBlockComment) && !(inLineComment && inBlockComment)
      invariant FindTerminator(buffer) ==
                FindFrom(buffer, index, if inString then InString else if inLineComment then InLineComment
                                        else if inBlockComment then InBlockComment else Normal)
      decreases |buffer| + 1 - index
    {
      var character := buffer[index];
      var next := if index + 1 < |buffer| then buffer[index + 1] else 0 as char;
      if inString {
        if character == '\'' && next == '\'' {
          index := index + 1;
        } else if character == '\'' {
          inString := false;
        }
      } else if inLineComment {
        if character == '\n' || character == '\r' {
          inLineComment := false;
        }
      } else if inBlockComment {
        if character == '*' && next == '/' {
          inBlockComment := false;
          index := index + 1;
        }
      } else if character == '\'' {
        inString := true;
      } else if character == '-' && next == '-' {
        inLineComment := true;
        index := index + 1;
      } else if character == '/' && next == '*' {
        inBlockComment := true;
        index := index + 1;
      } else if character == ';' {
        return Some(index + 1);
      }
      index := index + 1;
    }
    return None;
  }

  // The reference parameters buffer and statement are results here.
  method ExtractStatement(buffer: Text) returns (found: bool, statement: Text, rest: Text)
    ensures found == FindTerminator(buffer).Some?
    ensures found ==> statement == buffer[..FindTerminator(buffer).value] && statement + rest == buffer
    ensures !found ==> rest == buffer
  {
    var end := FindStatementTerminator(buffer);
    if end.None? {
      return false, [], buffer;
    }
    statement, rest := buffer[..end.value], buffer[end.value..];
    found := true;
  }
}
