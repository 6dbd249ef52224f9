/**
  main.cpp, the two ways a session feeds the engine: a whole script, and lines typed one by one.
  What is printed is the list of replies; reading and writing are not modelled.
 */
module Session {
  import opened Common
  import opened Splitter
  import opened Executor
  import opened Engine
  import opened Refinement

  // ---------------------------------------------------------------- texts

  predicate IsBlank(c: ByteChar) {
    c == ' ' || c == '\t' || c == '\r' || c == '\n'
  }

  function TrimFront(text: Text): Text {
    if text != [] && IsBlank(text[0]) then TrimFront(text[1..]) else text
  }

  function TrimBack(text: Text): Text {
    if text != [] && IsBlank(text[|text| - 1]) then TrimBack(text[..|text| - 1]) else text
  }

  function Trim(text: Text): Text {
    TrimBack(TrimFront(text))
  }

  predicate AllBlank(text: Text) {
    forall i :: 0 <= i < |text| ==> IsBlank(text[i])
  }

  lemma {:induction false} TrimFrontStrips(text: Text) returns (front: Text)
    ensures text == front + TrimFront(text) && AllBlank(front)
    ensures TrimFront(text) != [] ==> !IsBlank(TrimFront(text)[0])
  {
    if text != [] && IsBlank(text[0]) {
      var rest := TrimFrontStrips(text[1..]);
      front := [text[0]] + rest;
      assert text == [text[0]] + text[1..];
    } else {
      front := [];
    }
  }

  lemma {:induction false} TrimBackStrips(text: Text) returns (back: Text)
    ensures text == TrimBack(text) + back && AllBlank(back)
    ensures TrimBack(text) != [] ==> !IsBlank(TrimBack(text)[|TrimBack(text)| - 1]) && TrimBack(text)[0] == text[0]
  {
    if text != [] && IsBlank(text[|text| - 1]) {
      var n := |text| - 1;
      var rest := TrimBackStrips(text[..n]);
      back := rest + [text[n]];
      assert text == text[..n] + [text[n]];
    } else {
      back := [];
    }
  }

  // Trimming removes blanks at both ends and nothing else.
  lemma TrimStrips(text: Text) returns (front: Text, back: Text)
    ensures text == front + Trim(text) + back && AllBlank(front) && AllBlank(back)
    ensures Trim(text) != [] ==> !IsBlank(Trim(text)[0]) && !IsBlank(Trim(text)[|Trim(text)| - 1])
  {
    front := TrimFrontStrips(text);
    back := TrimBackStrips(TrimFront(text));
  }

  predicate IsExitCommand(line: Text) {
    var command := Trim(line);
    command == ".exit" || command == ".quit" || command == "exit" || command == "quit"
  }

  // Blanks are spaces, tabs, carriage returns and newlines.
  lemma BlanksExactly(c: ByteChar)
    ensures IsBlank(c) <==> c in " \t\r\n"
  {
  }

  lemma {:induction false} FrontGone(front: Text, rest: Text)
    requires AllBlank(front) && (rest != [] ==> !IsBlank(rest[0]))
    ensures TrimFront(front + rest) == rest
  {
    if front == [] {
      assert front + rest == rest;
    } else {
      assert (front + rest)[1..] == front[1..] + rest;
      FrontGone(front[1..], rest);
    }
  }

  lemma {:induction false} BackGone(rest: Text, back: Text)
    requires AllBlank(back) && (rest != [] ==> !IsBlank(rest[|rest| - 1]))
    ensures TrimBack(rest + back) == rest
    decreases |back|
  {
    if back == [] {
      assert rest + back == rest;
    } else {
      var n := |back| - 1;
      assert (rest + back)[..|rest + back| - 1] == rest + back[..n];
      BackGone(rest, back[..n]);
    }
  }

  // Whatever stands between blanks and has none at its ends is what trimming gives.
  lemma TrimExactly(front: Text, text: Text, back: Text)
    requires AllBlank(front) && AllBlank(back)
    requires text != [] && !IsBlank(text[0]) && !IsBlank(text[|text| - 1])
    ensures Trim(front + text + back) == text
  {
    assert front + text + back == front + (text + back);
    FrontGone(front, text + back);
    BackGone(text, back);
  }

  ghost predicate BetweenBlanks(line: Text, command: Text) {
    exists front, back :: AllBlank(front) && AllBlank(back) && line == front + command + back
  }

  // An exit command is one of four words between blanks.
  lemma ExitCommandsExactly(line: Text)
    ensures IsExitCommand(line) <==>
            BetweenBlanks(line, "exit") || BetweenBlanks(line, "quit") || BetweenBlanks(line, ".exit") || BetweenBlanks(line, ".quit")
  {
    hide Trim;
    var front, back := TrimStrips(line);
    assert BetweenBlanks(line, Trim(line));
    CommandBetweenBlanks(line, "exit");
    CommandBetweenBlanks(line, "quit");
    CommandBetweenBlanks(line, ".exit");
    CommandBetweenBlanks(line, ".quit");
  }

  lemma CommandBetweenBlanks(line: Text, command: Text)
    requires command != [] && !IsBlank(command[0]) && !IsBlank(command[|command| - 1])
    ensures BetweenBlanks(line, command) ==> Trim(line) == command
  {
    hide Trim, AllBlank;
    if BetweenBlanks(line, command) {
      var front, back :| AllBlank(front) && AllBlank(back) && line == front + command + back;
      TrimExactly(front, command, back);
    }
  }

  // ---------------------------------------------------------------- running texts

  const DEFAULT_TRANSACTION := Transaction(ReadWrite, Active)

  // Statements are trimmed, and empty ones are skipped.
  function RequestsOf(texts: seq<Text>): seq<Request> {
    if texts == [] then []
    else
      var sql := Trim(texts[0]);
      (if sql == [] then [] else [Request(sql, DEFAULT_TRANSACTION)]) + RequestsOf(texts[1..])
  }

  // Every text that is not all blank becomes one request, trimmed, in an active read-write
  // transaction, and no other.
  lemma OneRequest(text: Text)
    ensures RequestsOf([text]) == if AllBlank(text) then [] else [Request(Trim(text), Transaction(ReadWrite, Active))]
    ensures RequestsOf([]) == []
  {
    hide Trim;
    assert [text][1..] == [];
    var front, back := TrimStrips(text);
    BlankThroughout(front, Trim(text), back);
  }

  lemma BlankThroughout(front: Text, middle: Text, back: Text)
    requires AllBlank(front) && AllBlank(back) && (middle != [] ==> !IsBlank(middle[0]))
    ensures AllBlank(front + middle + back) <==> middle == []
  {
    assert middle != [] ==> (front + middle + back)[|front|] == middle[0];
  }

  // What a leftover without a semicolon adds.
  function Leftover(rest: Text): seq<Text> {
    if Trim(rest) == [] then [] else [rest]
  }

  function ScriptTexts(sql: Text): seq<Text> {
    SplitText(sql).statements + Leftover(SplitText(sql).rest)
  }

  type Replies = seq<Result<QueryResult>>

  function RunTexts(db: DatabaseState, texts: seq<Text>): (DatabaseState, Replies) {
    RunEngine(db, RequestsOf(texts))
  }

  // The replies so far, followed by those of the texts still to run.
  function Continue(db: DatabaseState, replies: Replies, texts: seq<Text>): (DatabaseState, Replies) {
    var (end, more) := RunTexts(db, texts);
    (end, replies + more)
  }

  predicate AllOk(replies: Replies) {
    forall i :: 0 <= i < |replies| ==> replies[i].Ok?
  }

  lemma {:induction false} RunEngineAppend(db: DatabaseState, a: seq<Request>, b: seq<Request>)
    ensures RunEngine(db, a + b) ==
            var (mid, first) := RunEngine(db, a);
            var (end, second) := RunEngine(mid, b);
            (end, first + second)
    decreases |a|
  {
    hide ExecuteSql;
    if a == [] {
      assert a + b == b;
      assert [] + RunEngine(db, b).1 == RunEngine(db, b).1;
    } else {
      var (db1, r) := ExecuteSql(db, a[0].sql, a[0].tx);
      assert (a + b)[1..] == a[1..] + b;
      RunEngineAppend(db1, a[1..], b);
      var (mid, first) := RunEngine(db1, a[1..]);
      assert [r] + (first + RunEngine(mid, b).1) == ([r] + first) + RunEngine(mid, b).1;
    }
  }

  lemma {:induction false} RequestsAppend(a: seq<Text>, b: seq<Text>)
    ensures RequestsOf(a + b) == RequestsOf(a) + RequestsOf(b)
  {
    if a == [] {
      assert a + b == b;
    } else {
      assert (a + b)[1..] == a[1..] + b;
      RequestsAppend(a[1..], b);
    }
  }

  lemma OneText(db: DatabaseState, sql: Text)
    ensures RunTexts(db, [sql]) ==
            if Trim(sql) == [] then (db, [])
            else var (end, r) := ExecuteSql(db, Trim(sql), DEFAULT_TRANSACTION); (end, [r])
  {
    hide ExecuteSql, Trim;
    assert [sql][1..] == [] && RequestsOf([]) == [];
    var request := Request(Trim(sql), DEFAULT_TRANSACTION);
    var none: seq<Request> := [];
    assert [request] + none == [request] && none + none == none && [request][1..] == none;
    assert RunEngine(db, none) == (db, []);
    if Trim(sql) != [] {
      var (end, r) := ExecuteSql(db, Trim(sql), DEFAULT_TRANSACTION);
      assert RequestsOf([sql]) == [request];
      assert RunEngine(end, none) == (end, []);
      assert [r] + [] == [r];
    }
  }

  lemma ContinueStep(db: DatabaseState, replies: Replies, first: seq<Text>, rest: seq<Text>)
    ensures Continue(db, replies, first + rest) ==
            var (mid, more) := RunTexts(db, first); Continue(mid, replies + more, rest)
  {
    hide RunEngine, RequestsOf;
    RequestsAppend(first, rest);
    RunEngineAppend(db, RequestsOf(first), RequestsOf(rest));
    var (mid, more) := RunTexts(db, first);
    assert replies + (more + RunTexts(mid, rest).1) == (replies + more) + RunTexts(mid, rest).1;
  }

  // ---------------------------------------------------------------- typed lines

  // Every text run from the buffer and the lines still to come; an exit command is one only on
  // an empty buffer.
  function ReplTexts(buffer: Text, lines: seq<Text>): seq<Text>
    decreases |lines|
  {
    if lines == [] || (Trim(buffer) == [] && IsExitCommand(lines[0])) then Leftover(buffer)
    else
      var now := SplitText(buffer + (lines[0] + "\n"));
      now.statements + ReplTexts(now.rest, lines[1..])
  }

  // How many lines are read before the loop ends.
  function LinesRead(buffer: Text, lines: seq<Text>): (n: nat)
    ensures n <= |lines|
    decreases |lines|
  {
    if lines == [] || (Trim(buffer) == [] && IsExitCommand(lines[0])) then 0
    else 1 + LinesRead(SplitText(buffer + (lines[0] + "\n")).rest, lines[1..])
  }

  function Joined(lines: seq<Text>): Text {
    if lines == [] then [] else lines[0] + "\n" + Joined(lines[1..])
  }

  // Typing a script line by line runs the texts of the script as a whole.
  lemma {:induction false} TypingIsRunningTheScript(buffer: Text, lines: seq<Text>)
    requires FindTerminator(buffer) == None
    ensures ReplTexts(buffer, lines) == ScriptTexts(buffer + Joined(lines[..LinesRead(buffer, lines)]))
    decreases |lines|
  {
    hide FindTerminator, Trim, IsExitCommand, SplitText, Joined, Leftover;
    var n := LinesRead(buffer, lines);
    if n == 0 {
      assert lines[..0] == [];
      NothingJoined(buffer);
      NoStatement(buffer);
      assert [] + Leftover(buffer) == Leftover(buffer);
    } else {
      var piece := lines[0] + "\n";
      var now := SplitText(buffer + piece);
      SplittingConserves(buffer + piece);
      TypingIsRunningTheScript(now.rest, lines[1..]);
      var more := Joined(lines[1..][..n - 1]);
      JoinedStep(buffer, lines, n);
      SplitOfExtendedBuffer(buffer + piece, more);
      var later := SplitText(now.rest + more);
      assert now.statements + (later.statements + Leftover(later.rest)) == (now.statements + later.statements) + Leftover(later.rest);
    }
  }

  // Reading ends with the lines, or at the first exit command on a buffer of blanks.
  lemma {:induction false} LinesReadExactly(buffer: Text, lines: seq<Text>, k: nat)
    requires FindTerminator(buffer) == None && k <= LinesRead(buffer, lines)
    ensures var n := LinesRead(buffer, lines);
            var kept := SplitText(buffer + Joined(lines[..k])).rest;
            var stops := k < |lines| && Trim(kept) == [] && IsExitCommand(lines[k]);
            if k < n then !stops else k == |lines| || stops
    decreases |lines|
  {
    hide FindTerminator, Trim, IsExitCommand, SplitText, Joined, Leftover;
    var n := LinesRead(buffer, lines);
    if k == 0 {
      assert lines[..0] == [];
      NothingJoined(buffer);
      NoStatement(buffer);
    } else {
      var piece := lines[0] + "\n";
      var now := SplitText(buffer + piece);
      SplittingConserves(buffer + piece);
      LinesReadExactly(now.rest, lines[1..], k - 1);
      JoinedStep(buffer, lines, k);
      SplitOfExtendedBuffer(buffer + piece, Joined(lines[1..][..k - 1]));
    }
  }

  lemma NothingJoined(buffer: Text)
    ensures buffer + Joined([]) == buffer
  {
  }

  lemma NoStatement(buffer: Text)
    requires FindTerminator(buffer) == None
    ensures SplitText(buffer) == Split([], buffer)
  {
    hide FindTerminator;
  }

  lemma JoinedStep(buffer: Text, lines: seq<Text>, n: nat)
    requires 0 < n <= |lines|
    ensures buffer + Joined(lines[..n]) == (buffer + (lines[0] + "\n")) + Joined(lines[1..][..n - 1])
  {
    assert lines[..n][1..] == lines[1..][..n - 1];
  }

  // A script, run from the first use of the engine, is a run of the abstract database.
  lemma ScriptsRefine(sql: Text)
    ensures var (end, replies) := RunTexts(EMPTY_DATABASE, ScriptTexts(sql));
            var requests := RequestsOf(ScriptTexts(sql));
            Linked(end) && RunSpec(map[], requests, |requests| < INVALID_PAGE_ID, replies, Abstraction(end))
  {
    hide Linked, Abstraction, RunEngine, RunSpec, RequestsOf, ScriptTexts;
    EngineRefines(RequestsOf(ScriptTexts(sql)));
  }

  // ---------------------------------------------------------------- the code

  class CommandSession {
    const engine: DefaultSqlEngine

    ghost predicate Valid()
      reads engine.storage, engine.storage.Repr
    {
      engine.Valid()
    }

    constructor ()
      ensures Valid() && engine.State() == EMPTY_DATABASE
    {
      engine := new DefaultSqlEngine();
    }

    method RunStatement(sql: Text) returns (success: bool, replies: Replies)
      requires Valid()
      modifies engine.catalog.hosted, engine.storage.Repr
      ensures Valid() && fresh(engine.storage.Repr - old(engine.storage.Repr))
      ensures (engine.State(), replies) == RunTexts(old(engine.State()), [sql])
      ensures success == AllOk(replies)
    {
      hide ExecuteSql, Trim, RunTexts, DefaultSqlEngine.State, DefaultSqlEngine.Valid;
      var trimmed := Trim(sql);
      OneText(engine.State(), sql);
      if trimmed == [] {
        return true, [];
      }
      var reply := engine.Execute(trimmed, DEFAULT_TRANSACTION);
      success, replies := reply.Ok?, [reply];
      assert replies[0] == reply;
    }

    // Runs every complete statement of the buffer and returns what is left of it.
    method RunComplete(text: Text) returns (rest: Text, success: bool, replies: Replies)
      requires Valid()
      modifies engine.catalog.hosted, engine.storage.Repr
      ensures Valid() && fresh(engine.storage.Repr - old(engine.storage.Repr))
      ensures rest == SplitText(text).rest && success == AllOk(replies)
      ensures (engine.State(), replies) == RunTexts(old(engine.State()), SplitText(text).statements)
    {
      hide RunTexts, FindTerminator, DefaultSqlEngine.State, DefaultSqlEngine.Valid;
      ghost var db := engine.State();
      ghost var all := SplitText(text);
      rest, success, replies := text, true, [];
      NothingMore(db, [], all.statements);
      while true
        invariant Valid() && fresh(engine.storage.Repr - old(engine.storage.Repr))
        invariant SplitText(rest).rest == all.rest && success == AllOk(replies)
        invariant RunTexts(db, all.statements) == Continue(engine.State(), replies, SplitText(rest).statements)
        decreases |rest|
      {
        var found, statement, tail := ExtractStatement(rest);
        if !found {
          NothingMore(engine.State(), replies, []);
          return;
        }
        assert tail == rest[|statement|..];
        ContinueStep(engine.State(), replies, [statement], SplitText(tail).statements);
        var ok, more := RunStatement(statement);
        MoreOk(replies, more);
        rest, success, replies := tail, ok && success, replies + more;
      }
    }

    method RunSqlText(sql: Text) returns (success: bool, replies: Replies)
      requires Valid()
      modifies engine.catalog.hosted, engine.storage.Repr
      ensures Valid() && fresh(engine.storage.Repr - old(engine.storage.Repr))
      ensures (engine.State(), replies) == RunTexts(old(engine.State()), ScriptTexts(sql))
      ensures success == AllOk(replies)
    {
      hide RunTexts, SplitText, Trim, DefaultSqlEngine.State, DefaultSqlEngine.Valid;
      ghost var db := engine.State();
      ghost var split := SplitText(sql);
      NothingMore(db, [], ScriptTexts(sql));
      ContinueStep(db, [], split.statements, Leftover(split.rest));
      var rest;
      rest, success, replies := RunComplete(sql);
      assert [] + replies == replies;
      NothingMore(engine.State(), replies, []);
      if Trim(rest) != [] {
        ghost var mid := engine.State();
        var ok, more := RunStatement(rest);
        MoreOk(replies, more);
        success, replies := ok && success, replies + more;
      }
    }

    // The reading loop; lines is what the terminal will deliver.
    method RunRepl(lines: seq<Text>) returns (replies: Replies)
      requires Valid()
      modifies engine.catalog.hosted, engine.storage.Repr
      ensures Valid() && fresh(engine.storage.Repr - old(engine.storage.Repr))
      ensures (engine.State(), replies) == RunTexts(old(engine.State()), ReplTexts([], lines))
    {
      hide RunTexts, SplitText, Trim, IsExitCommand, DefaultSqlEngine.State, DefaultSqlEngine.Valid;
      ghost var db := engine.State();
      var buffer: Text := [];
      var next := 0;
      replies := [];
      assert lines[0..] == lines;
      NothingMore(db, [], ReplTexts([], lines));
      while next < |lines| && !(Trim(buffer) == [] && IsExitCommand(lines[next]))
        invariant Valid() && fresh(engine.storage.Repr - old(engine.storage.Repr)) && next <= |lines|
        invariant RunTexts(db, ReplTexts([], lines)) == Continue(engine.State(), replies, ReplTexts(buffer, lines[next..]))
      {
        assert lines[next..][0] == lines[next] && lines[next..][1..] == lines[next + 1..];
        var piece := lines[next] + "\n";
        ghost var now := SplitText(buffer + piece);
        ContinueStep(engine.State(), replies, now.statements, ReplTexts(now.rest, lines[next + 1..]));
        var rest, ok, more := RunComplete(buffer + piece);
        buffer, replies := rest, replies + more;
        next := next + 1;
      }
      assert ReplTexts(buffer, lines[next..]) == Leftover(buffer);
      NothingMore(engine.State(), replies, []);
      if Trim(buffer) != [] {
        var ok, more := RunStatement(buffer);
        replies := replies + more;
      }
    }
  }

  lemma NothingMore(db: DatabaseState, replies: Replies, texts: seq<Text>)
    ensures Continue(db, [], texts) == RunTexts(db, texts)
    ensures Continue(db, replies, []) == (db, replies)
  {
    assert [] + RunTexts(db, texts).1 == RunTexts(db, texts).1;
    assert RequestsOf([]) == [] && replies + [] == replies;
  }

  lemma MoreOk(a: Replies, b: Replies)
    ensures AllOk(a + b) <==> AllOk(a) && AllOk(b)
  {
    assert forall i :: 0 <= i < |b| ==> (a + b)[|a| + i] == b[i];
    assert forall i :: 0 <= i < |a| ==> (a + b)[i] == a[i];
  }
}
