# MattSQL, modelled and proved in Dafny

MattSQL is a small SQL engine: a hand-written lexer and parser, a binder, a two-rule optimizer,
an executor, an in-memory catalog, and heap tables on slotted pages. This project models those
parts in Dafny and proves what they promise, up to one theorem about the whole engine.

The parts build on each other:

- **Values and bytes** (`Common`, `CheckedArithmetic`, `ByteIo`): int64 arithmetic that succeeds
  exactly when the mathematical result fits, comparison, little-endian bytes.
- **Storage** (`SlottedPage`, `Heap`, `ScanHistory`, `TupleCodec`, `TableScan`, `TableStorage`): a
  page buffer with a slot directory growing up and records growing down refines a map from slots
  to bytes; a heap of pages refines a map from record ids to bytes; a cursor behaves under
  interleaved insertions and deletions; the tuple codec is a bijection; one insertion adds one row
  to the bag of rows a table holds.
- **Text** (`Lexer`, `LexerTiling`, `Spellings`, `Splitter`, `Parser`, `Grammar`, `Printer`,
  `StatementPrinter`, `SourceText`, `ParsedText`, `LiteralRoundTrip`): the lexer returns the one
  token list that tiles the input, and every kind of word is described without it; the statement splitter of the command line agrees with the lexer on every text;
  parsing inverts a printer that parenthesises by the precedence table, first on tokens, then on
  source text, for every text that parses; it accepts nothing but spellings of what it returns,
  and every literal value comes back from the engine.
- **Queries** (`Expressions`, `Meaning`, `ConstantFolding`, `Plans`, `QueryExecution`, `Optimizer`,
  `Binder`, `TypeSoundness`, `BoundStatements`, `StatementMeaning`): what expressions and statements
  mean is stated without evaluator and binder, and both follow it exactly; the binder accepts exactly the well-typed readings of a
  statement, its types predict run-time values, and the optimizer keeps columns, rows and errors.
- **The engine** (`Catalog`, `Executor`, `Engine`, `Refinement`, `Session`): catalog and storage stay
  linked in every reachable state, and every run of the engine is a run of an abstract database that
  maps folded table names to a schema and a bag of rows. Each statement of that run is described by
  the parsed source alone, with the row it adds, the answer it gives or the error it reports; typing a script is running it.
- **Hosted I/O** (`HostedIo`): a bounded queue of completions over a block device.

Code that changes state is a class or a method with loops, proved to compute a function of its
inputs and the old state; the laws are lemmas about those functions. A heap or a table is compared
as a map or a bag, because first-fit insertion makes scan order differ from insertion order.

Some behaviours are worth knowing; each is stated with the exact condition under which it occurs.

- A leading NOT does not re-enter the operator loop: `NOT a AND b` is not one expression
  (`Printer.LeadingNotDoesNotContinue`). The printer therefore parenthesises every NOT that is an
  operand of a binary operator or a sign. On the right of OR it changes what AND binds:
  `a OR NOT b AND c` is `(a OR NOT b) AND c` (`Printer.NotEndsItsOperand`).
- Ids of I/O requests are distinct exactly when callers choose distinct ids beyond the number of
  automatic ones (`HostedIo.IdsAreUniqueExactly`).
- Page ids are unique within one table only (`TableStorage.PageIdsOverlapExactly`).
- A filter that the optimizer decides to be FALSE hides the error of the scan it no longer makes,
  and a condition that loses its BOOLEAN annotation by folding is rejected
  (`Optimizer.OptimizerPreservesSelect`). Neither happens through the engine, where the binder
  annotates correctly and scans of listed tables succeed (`Refinement`).
- The catalog's unvalidated update keeps its maps linked only for some tables
  (`Catalog.RawUpdateKeepsLinksExactly`); the validated operations always do.

Where the code and its comments differ the code is followed: the binder's remark that the parser
has no TRUE and FALSE literals is out of date, and 0 and 1 are still coerced for boolean columns.
Character classes are those of the C locale.

`dafny verify dfyconfig.toml` checks the project.

## Model

| member | source | states |
|---|---|---|
| `Common.FoldCharExactly` | include/mattsql/common/identifier.hpp:9-18 | folding takes the k-th capital letter to the k-th small one and leaves every other character alone |
| `CheckedArithmetic.Negate` | include/mattsql/common/value_utils.hpp:66-73 | the negation when it lies in int64, else ExecutionError |
| `CheckedArithmetic.Add` | include/mattsql/common/value_utils.hpp:75-85 | the mathematical sum exactly when it lies in int64, else ExecutionError; every guard stays in int64 |
| `CheckedArithmetic.Subtract` | include/mattsql/common/value_utils.hpp:87-98 | the mathematical difference exactly when it lies in int64, else ExecutionError; every guard stays in int64 |
| `CheckedArithmetic.Multiply` | include/mattsql/common/value_utils.hpp:100-131 | the mathematical product exactly when it lies in int64, else ExecutionError |
| `CheckedArithmetic.ProductOverflowsExactly` | include/mattsql/common/value_utils.hpp:113-128 | the four quotient guards detect exactly the products outside int64 |
| `CheckedArithmetic.Divide` | include/mattsql/common/value_utils.hpp:133-145 | succeeds exactly for a non-zero divisor and a truncated quotient in int64, and returns that quotient |
| `CheckedArithmetic.TruncDivTruncates` | include/mattsql/common/value_utils.hpp:144-144 | division rounds toward zero: the remainder is smaller than the divisor and has the dividend's sign |
| `CheckedArithmetic.TruncatedQuotientIsUnique` | include/mattsql/common/value_utils.hpp:144-144 | only one quotient truncates, so the description of division is complete |
| `CheckedArithmetic.ComparisonIsAntisymmetric` | include/mattsql/common/value_utils.hpp:147-178 | swapping operands negates the sign or keeps the error; zero only for equal values up to TRUE = 1 and FALSE = 0 |
| `CheckedArithmetic.ComparisonFollowsOrder` | include/mattsql/common/value_utils.hpp:147-178 | the sign says which operand is smaller, numerically with FALSE and TRUE as 0 and 1, or as text |
| `CheckedArithmetic.TextLessExactly` | include/mattsql/common/value_utils.hpp:163-173 | one text is smaller exactly when it is so at the first difference, or ends there |
| `CheckedArithmetic.TextLessTrichotomy` | include/mattsql/common/value_utils.hpp:163-173 | of two texts exactly one is smaller unless they are equal |
| `CheckedArithmetic.TextLessTransitive` | include/mattsql/common/value_utils.hpp:163-173 | the order on texts is transitive |
| `ByteIo.LittleEndianRoundTrip` | include/mattsql/storage/byte_io.hpp:15-37 | reading what was appended gives the value back at every width |
| `ByteIo.FromLittleEndianInverse` | include/mattsql/storage/byte_io.hpp:23-37 | appending what was read gives the bytes back |
| `ByteIo.LittleEndianDigits` | include/mattsql/storage/byte_io.hpp:15-21 | byte k is the k-th digit of the value in base 256, the lowest first |
| `ByteIo.AppendLittleEndian` | include/mattsql/storage/byte_io.hpp:15-21 | the loop appends exactly the little-endian bytes |
| `ByteIo.ReadLittleEndian` | include/mattsql/storage/byte_io.hpp:23-37 | fails exactly when fewer than the width's bytes remain and then leaves the offset; else decodes and advances |
| `ByteIo.WriteLittleEndianAt` | include/mattsql/storage/byte_io.hpp:47-54 | overwrites exactly the addressed bytes in place |
| `SlottedPage.InitializeIsEmpty` | src/storage/page/slotted_page.cpp:121-144 | a page is initialized exactly for a 16-bit size and a kind other than Free; it is then empty and keeps the layout invariant |
| `SlottedPage.InsertAddsOneSlot` | src/storage/page/slotted_page.cpp:146-185 | succeeds exactly when the record and the slot it needs fit; adds one slot that was not live, keeps all others and the invariant; failure changes nothing |
| `SlottedPage.InsertReusesSlots` | src/storage/page/slotted_page.cpp:103-185 | the lowest vacant slot is used again and then only the record takes space, else a new slot of six bytes; an insertion fails exactly when that is more than the free space, and takes exactly that much of it |
| `SlottedPage.SpaceExactly` | src/storage/page/slotted_page.cpp:121-259 | a new page is all free space without slots, and deleting changes neither |
| `SlottedPage.ReadIsLookup` | src/storage/page/slotted_page.cpp:187-213 | reading is lookup in the slot-to-bytes map, and never reports corruption |
| `SlottedPage.DamageIsReported` | src/storage/page/slotted_page.cpp:52-101 | on any page whatsoever: which headers are refused and with which error by every operation, and that a live slot is reported corrupt exactly when it lies outside the record area |
| `SlottedPage.DeleteRemovesOneSlot` | src/storage/page/slotted_page.cpp:215-238 | removes exactly the addressed live slot, or reports NotFound and changes nothing |
| `SlottedPage.ReachablePagesAreSound` | src/storage/page/slotted_page.cpp:52-101 | on every page reachable from Initialize directory and record area are apart, live payloads do not overlap, and Read reports no corruption |
| `SlottedPage.EntryRoundTrip` | src/storage/page/slotted_page.cpp:35-46 | a slot entry written to the directory reads back |
| `SlottedPage.PageFrame.Initialize` | src/storage/page/slotted_page.cpp:121-144 | the in-place code computes the specified initialization |
| `SlottedPage.PageFrame.FindDeletedSlot` | src/storage/page/slotted_page.cpp:103-113 | finds the first tombstone of the directory |
| `SlottedPage.PageFrame.Insert` | src/storage/page/slotted_page.cpp:146-185 | the in-place code computes the specified insertion, slot reuse included |
| `SlottedPage.PageFrame.Read` | src/storage/page/slotted_page.cpp:187-213 | the code computes the specified read |
| `SlottedPage.PageFrame.Delete` | src/storage/page/slotted_page.cpp:215-238 | the in-place code computes the specified deletion |
| `SlottedPage.PageFrame.GetFreeSpace` | src/storage/page/slotted_page.cpp:240-249 | the space a new record and its slot may take |
| `SlottedPage.PageFrame.GetSlotCount` | src/storage/page/slotted_page.cpp:251-259 | the number of directory entries, tombstones included |
| `Heap.EmptyHeapIsSound` | src/storage/heap/page_heap_table.cpp:130-131 | a new heap is empty and keeps the invariant |
| `Heap.InsertRefinesMap` | src/storage/heap/page_heap_table.cpp:141-169 | adds one record under an id not live before, exactly when some page fits or a fresh page can be had; the page used is the first that fits, and the heap grows by one page exactly when none does; failure changes nothing |
| `Heap.InsertErrorIs` | src/storage/heap/page_heap_table.cpp:141-169 | an insertion fails with InvalidArgument for a record too large while page ids are left, and with Internal once they are used up |
| `Heap.TryPagesIsFirstFit` | src/storage/heap/page_heap_table.cpp:145-154 | the loop uses the first page with room and passes on only when none has any |
| `Heap.GrownHeap` | src/storage/heap/page_heap_table.cpp:43-67 | a page is added exactly while ids and a legal page size allow it, with id root + number of pages and no records |
| `Heap.FindPageIsOffset` | src/storage/heap/page_heap_table.cpp:69-85 | the page with an id is found at id minus root or not at all |
| `Heap.ReadRefinesMap` | src/storage/heap/page_heap_table.cpp:171-180 | reading is lookup in the record map |
| `Heap.DeleteRefinesMap` | src/storage/heap/page_heap_table.cpp:182-197 | removes exactly the addressed record, or reports NotFound and changes nothing |
| `Heap.PageHeapTable.AllocatePageFrame` | src/storage/heap/page_heap_table.cpp:43-67 | the code computes the specified allocation over the list of pages |
| `Heap.PageHeapTable.Insert` | src/storage/heap/page_heap_table.cpp:141-169 | the code computes the specified insertion, live counter included |
| `Heap.PageHeapTable.Read` | src/storage/heap/page_heap_table.cpp:171-180 | the code computes the specified read |
| `Heap.PageHeapTable.Delete` | src/storage/heap/page_heap_table.cpp:182-197 | the code computes the specified deletion |
| `Heap.HeapCursor.Next` | src/storage/heap/page_heap_table.cpp:98-123 | the nested loops compute the specified next record on the live state |
| `ScanHistory.NextPassesOneRecord` | src/storage/heap/page_heap_table.cpp:98-123 | one call returns the only live record it moves past, or reports the end only when all live records had been passed |
| `ScanHistory.NothingReturnedTwice` | src/storage/heap/page_heap_table.cpp:94-128 | over any mix of inserts, deletes and calls no record id is returned twice |
| `ScanHistory.ReturnedRecordsAreLive` | src/storage/heap/page_heap_table.cpp:94-128 | a returned record is live with those bytes at that moment, and the only error is the end |
| `ScanHistory.LiveThroughoutIsReturnedOnce` | src/storage/heap/page_heap_table.cpp:94-128 | a record live throughout the run has been returned exactly once when the scan ends |
| `TupleCodec.DecodeInvertsEncode` | src/storage/tuple_codec.cpp:56-204 | decoding an encoded row returns that row |
| `TupleCodec.EncodeInvertsDecode` | src/storage/tuple_codec.cpp:56-204 | encoding a decoded record returns the same bytes |
| `TupleCodec.EncodeSucceedsExactly` | src/storage/tuple_codec.cpp:56-116 | exactly the conforming rows with texts below 2^32 bytes encode, to the sum of their field sizes |
| `TupleCodec.FieldFormat` | src/storage/tuple_codec.cpp:56-116 | the bytes of a field one by one: tag, two's complement or length in little-endian order, characters |
| `TupleCodec.RecordIsFields` | src/storage/tuple_codec.cpp:56-116 | a record is the fields in column order with nothing between |
| `TupleCodec.ConformingRowEncodes` | src/storage/tuple_codec.cpp:56-116 | a conforming row over typed columns is refused only with InvalidArgument, for a text of 2^32 bytes or more |
| `TupleCodec.DecodedRowsConform` | src/storage/tuple_codec.cpp:118-204 | every byte string decodes to a row of the schema or to Corruption |
| `TupleCodec.Encode` | src/storage/tuple_codec.cpp:56-116 | the appending loop computes the specified encoding |
| `TupleCodec.Decode` | src/storage/tuple_codec.cpp:118-204 | the offset loop computes the specified decoding and never reads outside the record |
| `TableScan.ScanRows` | src/execution/default_executor.cpp:324-350 | the scan loop computes the specified rows, and terminates |
| `TableScan.ViewsListTheRest` | src/storage/heap/page_heap_table.cpp:94-128 | an uninterrupted scan visits each live record once, with its bytes |
| `TableScan.ScanSucceeds` | src/execution/default_executor.cpp:330-350 | over decodable records the scan returns the decoded rows of the records it visits |
| `TableScan.InsertAddsOneRow` | src/storage/heap/page_heap_table.cpp:141-169 | one insertion adds exactly its row to the bag of rows a scan lists, wherever first fit put it |
| `TableScan.ScannedRowsConform` | src/execution/default_executor.cpp:330-350 | every scanned row conforms to the table's schema |
| `Meaning.EvaluationIsExact` | src/execution/expression_evaluator.cpp:15-282 | the evaluator computes exactly the meaning of an expression, stated on mathematical integers, first differences of texts and outcomes of operands: operators, operand order, short circuits, NULLs and errors |
| `Meaning.EvaluationWithoutRow` | src/execution/expression_evaluator.cpp:284-306 | without a row it computes the meaning on the empty row |
| `Expressions.CloneIsIdentity` | src/binder/expression_utils.cpp:38-105 | cloning is the identity on star-free trees and refuses the others |
| `Expressions.ValidationExact` | src/binder/expression_utils.cpp:229-242 | passes exactly the trees without columns and stars |
| `Expressions.EvaluateExpressions` | src/execution/expression_evaluator.cpp:284-306 | the loop computes left-to-right evaluation up to the first error |
| `Expressions.EvaluateAllPointwise` | src/execution/expression_evaluator.cpp:284-306 | a list evaluates exactly when each member does, position by position |
| `Expressions.IntegerComparisons` | src/execution/expression_evaluator.cpp:112-239 | the six comparison operators mean the mathematical comparisons on integers |
| `Expressions.OppositeComparisons` | src/execution/expression_evaluator.cpp:112-239 | on values other than NULL, opposite operators negate each other and swapped operands mirror |
| `Expressions.LogicalOperators` | src/execution/expression_evaluator.cpp:59-110 | AND and OR read the right operand only when the left does not decide, and insist on booleans |
| `ConstantFolding.FoldingPreservesEvaluation` | src/optimizer/default_optimizer.cpp:175-222 | for every star-free expression and context the folded expression has the same value or the same error |
| `ConstantFolding.FoldCurrentPreserves` | src/optimizer/default_optimizer.cpp:175-217 | folding one node keeps its value or error |
| `ConstantFolding.FoldBinaryIsEvaluation` | src/optimizer/default_optimizer.cpp:164-173 | two literals fold only to the value of evaluating them, and strict operators fold whenever evaluation succeeds |
| `ConstantFolding.FoldingIsIdempotent` | src/optimizer/default_optimizer.cpp:219-222 | folding a folded expression changes nothing |
| `ConstantFolding.FoldedIsNormal` | src/optimizer/default_optimizer.cpp:175-222 | folding goes all the way: no operator is left over literals that has a value, except AND and OR whose right literal is no boolean |
| `ConstantFolding.FoldingKeepsColumns` | src/optimizer/default_optimizer.cpp:175-217 | columns stay columns and nothing becomes one |
| `Plans.CloneAll` | src/binder/expression_utils.cpp:107-126 | a list clones to itself exactly when no member has a star |
| `Plans.PlannedSelectShape` | src/planner/default_logical_planner.cpp:42-98 | a planned SELECT is a projection over an optional filter over a scan or one empty row, star-free and of matching arity |
| `Plans.LowerChildren` | src/planner/default_physical_planner.cpp:30-49 | the accumulating loop computes the lowering of the list up to the first error |
| `QueryExecution.FilterIsExact` | src/execution/default_executor.cpp:243-281 | keeps exactly the rows the predicate accepts with their multiplicities; fails exactly when some row makes it fail, with such a row's error |
| `QueryExecution.ProjectionIsPointwise` | src/execution/default_executor.cpp:183-241 | projects row by row in order, and fails exactly when some row does, with such a row's error |
| `QueryExecution.ValuesArePointwise` | src/execution/default_executor.cpp:290-301 | lists of values are evaluated one by one without a row, up to the first that fails |
| `QueryExecution.ProjectedRowsHaveWidth` | src/execution/default_executor.cpp:183-241 | output rows are as wide as the column list |
| `Optimizer.OptimizingTwiceIsOptimizingOnce` | src/optimizer/default_optimizer.cpp:373-395 | for every plan tree, optimizing an optimized plan changes nothing |
| `Optimizer.OptimizedPlansAreNormal` | src/optimizer/default_optimizer.cpp:224-395 | for every plan tree, the optimized plan has only fully folded expressions and no filter by TRUE or FALSE |
| `Optimizer.OptimizerPreservesSelect` | src/optimizer/default_optimizer.cpp:224-324 | for every SELECT the planner accepts: the optimized plan lowers if and only if folding leaves its condition BOOLEAN; optimized and original plan give the same columns, rows and error if and only if, with such a condition, the scan succeeds or the filter was not decided FALSE and, with another one, the scan yields a row or fails with TypeMismatch itself |
| `Optimizer.IllAnnotatedConditionIsRejected` | src/optimizer/default_optimizer.cpp:175-217 | an input for which the answers differ: -1 annotated BOOLEAN, over an empty table, answers before optimizing and is rejected when lowered after it |
| `Optimizer.OptimizerPreservesInsert` | src/optimizer/default_optimizer.cpp:224-279 | INSERT keeps its target and evaluates the same row or error |
| `Optimizer.OptimizerKeepsCreateTable` | src/optimizer/default_optimizer.cpp:224-324 | CREATE TABLE plans are left as they are |
| `Optimizer.PlannedSelectRuns` | src/planner/default_physical_planner.cpp:105-168 | the lowered plan of a SELECT computes scan, filter and projection of the bound statement |
| `Optimizer.ApplyConstantFolding` | src/optimizer/default_optimizer.cpp:224-279 | the node-rewriting code computes the specified folding of the plan |
| `Optimizer.ApplyFilterRemoval` | src/optimizer/default_optimizer.cpp:281-324 | the node-replacing code computes the specified filter removal |
| `Optimizer.Optimize` | src/optimizer/default_optimizer.cpp:373-395 | the loop applies the rules in order and stops at the first error |
| `Lexer.LocationsCount` | src/lexer/lexer.cpp:92-107 | a line is one more than the newlines before, a column one more than the characters before on the same line |
| `Lexer.Scanner.Advance` | src/lexer/lexer.cpp:93-107 | consumes one character; the location stays the function of the consumed prefix |
| `Lexer.Scanner.SkipTrivia` | src/lexer/lexer.cpp:116-163 | skips blanks and complete comments, and fails on an unterminated comment |
| `Lexer.Scanner.ScanToken` | src/lexer/lexer.cpp:177-195 | scans the specified token with its source slice and locations |
| `Lexer.Scanner.Tokenize` | src/lexer/lexer.cpp:40-59 | the whole scan computes the specified token list or the lexical error |
| `LexerTiling.TokensTileTheInput` | src/lexer/lexer.cpp:40-288 | lexing succeeds with a token list if and only if that list tiles the input: gaps are blanks, block comments and line comments that run to their line end, lexemes are source slices, locations are functions of the prefix, each lexeme is a token on its own and cannot be longer, one EOF is last |
| `LexerTiling.TiledTokensAreOrdered` | src/lexer/lexer.cpp:40-59 | tokens are ordered and disjoint |
| `LexerTiling.SpelledTextLexesBack` | src/lexer/lexer.cpp:116-288 | valid words that may follow each other lex back to exactly those words |
| `Spellings.KeywordWordsExactly` | src/lexer/lexer.cpp:302-314 | the words of a keyword's type are its spellings in any mix of cases and no others |
| `Spellings.OperatorWordsExactly` | src/lexer/lexer.cpp:239-288 | operators have one spelling each, and inequality also <> |
| `Spellings.IntegerWordsExactly` | src/lexer/lexer.cpp:207-214 | integer words are exactly the non-empty runs of decimal digits |
| `Spellings.StringWordsExactly` | src/lexer/lexer.cpp:216-237 | string words are exactly the quoted texts with quotes doubled |
| `Spellings.NameWordsExactly` | src/lexer/lexer.cpp:197-205 | names are exactly the runs of letters, digits and underscores that begin with no digit and are no keyword in any mix of cases |
| `Spellings.InvalidWordsExactly` | src/lexer/lexer.cpp:217-288 | the invalid words are exactly the characters that begin no token, one by one, and texts that are never closed |
| `Spellings.TypeNamesExactly` | src/parser/parser.cpp:389-405 | which names are column types: INT or INTEGER, TEXT, BOOL or BOOLEAN, in any mix of cases |
| `Splitter.SplitterAgreesWithLexer` | src/main.cpp:69-123 | for every text the terminator is found at the end of the first semicolon token the lexer scans, and not found exactly when there is none |
| `Splitter.FirstSemicolonIsFirst` | src/main.cpp:69-123 | what it means to be the first semicolon token of a token list |
| `Splitter.StatementEndsAtItsFirstSemicolon` | src/main.cpp:127-136 | an extracted statement lexed alone has its first semicolon at its end |
| `Splitter.SplittingConserves` | src/main.cpp:185-197 | statements followed by the remainder are the input, and the remainder holds no complete statement |
| `Splitter.PiecesDoNotMatter` | src/main.cpp:236-242 | feeding a text in arbitrary pieces yields the statements and remainder of feeding it whole |
| `Splitter.FindStatementTerminator` | src/main.cpp:69-123 | the flag automaton computes the specified terminator |
| `Splitter.ExtractStatement` | src/main.cpp:127-136 | cuts the first statement off the buffer, losing nothing, or leaves the buffer alone |
| `Parser.TokenParser.constructor` | src/parser/parser.cpp:48-58 | adds an EOF token exactly when the stream lacks one |
| `Parser.TokenParser.ParseExpression` | src/parser/parser.cpp:212-234 | the operator loop computes the specified parse, moves the cursor past it and terminates |
| `Parser.TokenParser.ParsePrefixExpression` | src/parser/parser.cpp:237-255 | computes the specified parse, the minimum integer included |
| `Parser.TokenParser.ParsePrimaryExpression` | src/parser/parser.cpp:258-315 | computes the specified parse |
| `Parser.TokenParser.ParseSelectStatement` | src/parser/parser.cpp:129-143 | computes the specified parse |
| `Parser.TokenParser.ParseInsertStatement` | src/parser/parser.cpp:146-158 | computes the specified parse |
| `Parser.TokenParser.ParseCreateTableStatement` | src/parser/parser.cpp:161-178 | computes the specified parse |
| `Parser.TokenParser.Parse` | src/parser/parser.cpp:61-86 | one statement, an optional semicolon and nothing else, as specified |
| `Grammar.ExprSound` | src/parser/parser.cpp:212-340 | what the parser consumed is a spelling of the tree it returns, every token accounted for |
| `Grammar.AcceptsOnlySpellings` | src/parser/parser.cpp:61-209 | a statement is accepted only from its own tokens, an optional semicolon and the end |
| `Grammar.WholeComplete` | src/parser/parser.cpp:212-340 | every spelling of an expression that respects precedence, with any number of redundant parentheses, parses to it |
| `Grammar.SpellingDoesNotMatter` | src/parser/parser.cpp:61-340 | token lists that differ only in how keywords and operators are spelled parse to the same statement or fail alike |
| `Printer.ParsingInvertsPrinting` | src/parser/parser.cpp:212-340 | every tree the parser can produce, parenthesised by the precedence table and NOT operands always, parses back with all its tokens consumed |
| `Printer.OperandParses` | src/parser/parser.cpp:222-234 | parsing a printed operand from a lower level builds it and goes on in the operator loop with it on the left |
| `Printer.ExprIsProducible` | src/parser/parser.cpp:212-315 | what the parser returns is a tree the printer covers |
| `Printer.ReparsingIsIdentity` | src/parser/parser.cpp:212-340 | printing a parsed expression and parsing that gives the same tree |
| `Printer.LeadingNotDoesNotContinue` | src/parser/parser.cpp:213-216 | for every operand, before AND or OR and whatever follows, parsing stops after NOT a and leaves the operator unread |
| `Printer.NotEndsItsOperand` | src/parser/parser.cpp:213-216 | for all operands, a OR NOT b AND c is parsed as (a OR NOT b) AND c |
| `Printer.StringReadsBack` | src/parser/parser.cpp:21-43 | unquoting a quoted text gives it back, doubled quotes included |
| `Printer.IntegerReadsBack` | src/parser/parser.cpp:258-265 | the decimal spelling of a non-negative int64 reads back |
| `Printer.DigitsAreDecimal` | src/parser/parser.cpp:258-265 | digits without leading zeros are the decimal spelling of their value |
| `StatementPrinter.StatementParsesBack` | src/parser/parser.cpp:61-209 | every printed statement, with or without semicolon, parses back to itself |
| `StatementPrinter.ParsedStatementsArePrintable` | src/parser/parser.cpp:61-209 | every statement the parser returns is one the printer covers |
| `StatementPrinter.ReparsingAStatementIsIdentity` | src/parser/parser.cpp:61-209 | printing a parsed statement and parsing that gives the same statement |
| `SourceText.StatementTextParsesBack` | src/parser/parser.cpp:61-209 | the printed source text lexes and parses back to the statement |
| `ParsedText.ParsedStatementNames` | src/parser/parser.cpp:61-340 | every name in a statement parsed from words, dotted ones part by part, is made of those words |
| `ParsedText.ParsedTextParsesBack` | src/sql_engine.cpp:40-51 | whatever text a statement was parsed from, its printed source text parses to the same statement |
| `SourceText.NameIsWordExactly` | src/lexer/lexer.cpp:198-205 | which names are identifier tokens: letters, digits and underscores, no leading digit, no keyword |
| `SourceText.KeywordIsWord` | src/lexer/lexer.cpp:302-314 | each keyword's spelling is one token of its type |
| `SourceText.QuotedIsWord` | src/lexer/lexer.cpp:217-237 | every quoted text is one string token |
| `LiteralRoundTrip.LiteralsRoundTrip` | src/sql_engine.cpp:93-134 | the SQL spelling of every integer, boolean and text, selected by the engine, returns that value and changes nothing |
| `LiteralRoundTrip.LiteralParses` | src/parser/parser.cpp:237-273 | the spelling of a value parses to its literal, the minimum integer included |
| `Binder.BindProjectionList` | src/binder/default_binder.cpp:438-465 | the loop binds projections in order, expands stars to all columns, and stops at the first error |
| `Binder.ExpandStar` | src/binder/default_binder.cpp:450-455 | one column expression and name per column of the table |
| `Binder.BindSelectStatement` | src/binder/default_binder.cpp:422-481 | the code computes the specified binding |
| `Binder.BindInsertStatement` | src/binder/default_binder.cpp:383-420 | the code computes the specified binding and coercion |
| `Binder.BindCreateStatement` | src/binder/default_binder.cpp:323-381 | the code computes the specified validation |
| `TypeSoundness.BindingIsExact` | src/binder/default_binder.cpp:178-321 | the binder returns a tree exactly when the tree mirrors the source expression and is well typed |
| `TypeSoundness.RejectionIsExact` | src/binder/default_binder.cpp:178-321 | the binder refuses an expression exactly for its first fault from the left, with that fault's error code: a name that denotes no column or a star, or operands an operator does not take |
| `TypeSoundness.TypingRules` | src/binder/default_binder.cpp:85-123 | which operand types each operator takes and which type it gives, operator by operator |
| `TypeSoundness.ResolvesExactly` | src/binder/default_binder.cpp:38-83 | a name resolves to a column exactly when it denotes it, alone or qualified by the table, up to case |
| `TypeSoundness.SplitExactly` | src/binder/default_binder.cpp:38-58 | a name splits exactly into a dot-free column or two dot-free non-empty parts |
| `TypeSoundness.WellTypedNeverMismatches` | src/binder/default_binder.cpp:196-289 | on a conforming row without NULLs a well-typed expression has a value of its type or fails with ExecutionError |
| `TypeSoundness.ResultsFitTheirType` | src/binder/default_binder.cpp:196-289 | with NULLs a result has the annotated type, or is NULL for a bare column or a NULL literal only |
| `TypeSoundness.FoldingPreservesTyping` | src/optimizer/default_optimizer.cpp:175-222 | folding keeps every expression well typed with the same annotation |
| `StatementMeaning.SelectBindsExactly` | src/binder/default_binder.cpp:422-481 | a SELECT binds exactly as the statement it reads as: one output per projection in order under its alias, all columns under their names for a star, and a BOOLEAN condition exactly when the source has one; it is refused exactly for its first fault |
| `StatementMeaning.InsertBindsExactly` | src/binder/default_binder.cpp:125-158 | an INSERT binds exactly as it reads: each value mirrors its source, or is TRUE or FALSE for the literal 1 or 0 in a boolean column; it is refused exactly for its first fault |
| `StatementMeaning.CreateReadsExactly` | src/binder/default_binder.cpp:20-31 | a CREATE TABLE binds exactly to nullable columns of the given names and types, numbered by position; which error each refusal has |
| `StatementMeaning.AnswerIsMeant` | src/execution/default_executor.cpp:183-281 | the answer over listed rows: the outputs of exactly the rows whose condition is TRUE, in order, under aliases, column names or counted names; or the error of a failing row |
| `StatementMeaning.RowIsMeant` | src/execution/expression_evaluator.cpp:284-306 | a list of expressions gives the row of their values, or the first error from the left |
| `BoundStatements.BoundSelectIsWellTyped` | src/binder/default_binder.cpp:422-481 | an accepted SELECT is well typed over its table's columns, with one name per expression and a BOOLEAN condition |
| `BoundStatements.AcceptedSelectPlans` | src/planner/default_logical_planner.cpp:42-98 | an accepted SELECT plans exactly when it has output columns, and its condition stays BOOLEAN under folding |
| `BoundStatements.AcceptedSelectOptimizesSafely` | src/optimizer/default_optimizer.cpp:373-395 | for everything the binder accepts the optimized, lowered plan answers as the bound statement means, whenever the scan succeeds |
| `BoundStatements.SelectedRowsConform` | src/execution/default_executor.cpp:183-241 | the rows a SELECT returns conform to the column types it announces |
| `BoundStatements.SelectNeverMismatches` | src/execution/default_executor.cpp:183-281 | on rows without NULLs an accepted SELECT fails only with ExecutionError |
| `BoundStatements.AcceptedInsertConforms` | src/binder/default_binder.cpp:383-420 | an accepted INSERT plans; the row it evaluates conforms to the schema, and evaluation fails only with ExecutionError |
| `BoundStatements.CreateBindsExactly` | src/binder/default_binder.cpp:323-381 | accepted exactly for a free name and definable columns, giving those columns in order under positional ids |
| `Catalog.CreateTableExactly` | src/catalog/in_memory_catalog.cpp:45-101 | succeeds exactly for a named creatable schema under a free name, adds that one table with the next id; failure changes nothing |
| `Catalog.CreateTableErrors` | src/catalog/in_memory_catalog.cpp:45-101 | which error a refused creation reports, down to the first column at fault |
| `Catalog.CatalogErrors` | src/catalog/in_memory_catalog.cpp:103-191 | which error a refused drop, root update or index creation reports |
| `Catalog.SetRootExactly` | src/catalog/in_memory_catalog.cpp:117-129 | changes the root of the one table, exactly for a valid root and a listed id |
| `Catalog.CreateIndexExactly` | src/catalog/in_memory_catalog.cpp:135-191 | succeeds exactly for a valid request under a free name, and adds one index with the next id to list, map and key map |
| `Catalog.DropTableExactly` | src/catalog/hosted_catalog_api.cpp:58-72 | dropping removes the one table and its indexes, exactly when it is listed, and leaves the others and the counters alone |
| `Catalog.TableLookupIsByName` | src/catalog/in_memory_catalog.cpp:108-111 | looking a table up finds exactly the listed table of that name up to case, else NotFound |
| `Catalog.ColumnsValidateExactly` | src/catalog/in_memory_catalog.cpp:68-92 | which column lists validate, and that ids become positions |
| `Catalog.KeysValidateExactly` | src/catalog/in_memory_catalog.cpp:165-175 | which key column lists validate: distinct columns of the table |
| `Catalog.DropUndoesCreate` | src/catalog/in_memory_catalog.cpp:45-106 | dropping a table just created restores every map |
| `Catalog.IndexLookupIsListLookup` | src/catalog/in_memory_catalog.cpp:193-198 | looking an index up by name finds exactly the member of the table's index list with that name |
| `Catalog.CreateTableKeepsLinks` | src/catalog/in_memory_catalog.cpp:45-101 | keeps the four maps linked |
| `Catalog.DropTableKeepsLinks` | src/catalog/hosted_catalog_api.cpp:58-72 | keeps the four maps linked: name, id, indexes and index keys go together |
| `Catalog.SetRootKeepsLinks` | src/catalog/in_memory_catalog.cpp:117-129 | keeps the four maps linked |
| `Catalog.CreateIndexKeepsLinks` | src/catalog/in_memory_catalog.cpp:135-191 | keeps the four maps linked |
| `Catalog.ReachableCatalogsAreLinked` | src/catalog/in_memory_catalog.cpp:45-191 | in every reachable catalog the name and id maps are inverse, index lists mirror the index maps, column ids are positions and folded names unique |
| `Catalog.TableIdsAreNeverReused` | src/catalog/hosted_catalog_api.cpp:34-40 | ids handed out over a run increase strictly, drops or not |
| `Catalog.RawUpdateKeepsLinksExactly` | src/catalog/hosted_catalog_api.cpp:74-89 | the unvalidated update of a listed table keeps the four maps linked if and only if the new schema is non-empty and well formed and the new index list mirrors the stored index map and fits table and schema |
| `Catalog.RawUpdateBreaksTheMirror` | src/catalog/hosted_catalog_api.cpp:74-89 | so an index added to a table's list alone, and missing from the maps, breaks the links |
| `Catalog.HostedCatalog.Store` | src/catalog/hosted_catalog_api.cpp:42-56 | the code changes the maps as specified |
| `Catalog.HostedCatalog.Erase` | src/catalog/hosted_catalog_api.cpp:58-72 | the code, its index loop included, changes the maps as specified |
| `Catalog.HostedCatalog.Update` | src/catalog/hosted_catalog_api.cpp:74-89 | the code changes the one table and keeps its stored name |
| `Catalog.HostedCatalog.LoadTables` | src/catalog/hosted_catalog_api.cpp:110-123 | all tables, once each, ordered by id |
| `Catalog.HostedCatalog.PutIndex` | src/catalog/hosted_catalog_api.cpp:125-153 | the code changes list, map and key map as specified |
| `Catalog.InMemoryCatalog.Create` | src/catalog/in_memory_catalog.cpp:45-101 | the validation loop and the store compute the specified creation |
| `Catalog.InMemoryCatalog.Drop` | src/catalog/in_memory_catalog.cpp:103-106 | computes the specified drop |
| `Catalog.InMemoryCatalog.SetRoot` | src/catalog/in_memory_catalog.cpp:117-129 | computes the specified update |
| `Catalog.InMemoryCatalog.AddIndex` | src/catalog/in_memory_catalog.cpp:135-191 | the key loop and the store compute the specified creation |
| `TableStorage.CreateHeapExactly` | src/storage/in_memory_table_storage.cpp:39-57 | exactly for a new table while roots are left: an empty heap under a root no other table has, all other heaps unchanged |
| `TableStorage.OpenHeapExactly` | src/storage/in_memory_table_storage.cpp:58-79 | a heap is opened exactly by its table id and root; a wrong root is Corruption, an unknown id NotFound |
| `TableStorage.InsertIntoOneHeap` | src/storage/in_memory_table_storage.cpp:58-79 | insertion through a handle touches that heap alone, by the one record |
| `TableStorage.RecordCountIsExact` | src/storage/in_memory_table_storage.cpp:81-91 | the count is the number of live records |
| `TableStorage.PageIdsOverlapExactly` | src/storage/in_memory_table_storage.cpp:52-52 | of any two tables, the one with the smaller root shares a page id with the other if and only if the other has a page and the first has grown up to its root |
| `TableStorage.PageIdsDoOverlap` | src/storage/in_memory_table_storage.cpp:39-57 | such a state is reached: two new tables, two records too large to share a page in the first, one in the second |
| `TableStorage.InMemoryTableStorage.Create` | src/storage/in_memory_table_storage.cpp:39-57 | the code computes the specified creation and keeps heaps disjoint |
| `TableStorage.InMemoryTableStorage.Open` | src/storage/in_memory_table_storage.cpp:58-79 | returns the shared heap exactly when id and root match, else NotFound or Corruption |
| `TableStorage.InMemoryTableStorage.Count` | src/storage/in_memory_table_storage.cpp:81-91 | computes the specified count |
| `TableStorage.InsertThroughHandle` | src/execution/default_executor.cpp:156-178 | an insertion through a handle is seen by the storage as the specified change |
| `Executor.QueriesOnlyRead` | src/execution/default_executor.cpp:183-350 | reading plans leave the database alone and compute the query's meaning |
| `Executor.ReadOnlyChangesNothing` | src/execution/default_executor.cpp:39-51 | without an active read-write transaction no plan at all changes the database |
| `Executor.ProjectLoop` | src/execution/default_executor.cpp:208-240 | the loops compute output names, schema and projected rows as specified |
| `Executor.FilterLoop` | src/execution/default_executor.cpp:261-280 | the loop computes the kept rows or the first error |
| `Executor.ValuesLoop` | src/execution/default_executor.cpp:290-301 | the loop evaluates each row without an input row |
| `Executor.ExecutionDriver.CreateTable` | src/execution/default_executor.cpp:96-132 | computes the specified creation, undone when no storage can be had |
| `Executor.ExecutionDriver.Store` | src/execution/default_executor.cpp:156-180 | the loop encodes and inserts row by row; rows before a failing one stay |
| `Executor.ExecutionDriver.Scan` | src/execution/default_executor.cpp:304-353 | computes the specified scan |
| `Executor.ExecutionDriver.ExecuteNode` | src/execution/default_executor.cpp:70-95 | every operator computes its specification on the database it is given |
| `Engine.DefaultSqlEngine.Execute` | src/sql_engine.cpp:93-134 | the stages run in order, each stage's error is returned at once, and the state changes as specified |
| `Engine.DefaultSqlEngine.Parse` | src/sql_engine.cpp:40-51 | lexing and parsing as specified, every failure a parse error |
| `Engine.ParsingFailsAlike` | src/sql_engine.cpp:40-51 | whatever is wrong with a text is a parse error |
| `Engine.ReadOnlySqlChangesNothing` | src/sql_engine.cpp:93-134 | a read-only or inactive transaction leaves any database exactly as it was, whatever the text |
| `Refinement.EngineRefines` | src/sql_engine.cpp:93-134 | every run of the default engine is a run of the abstract database with the same replies, and keeps catalog and storage linked; in runs of fewer than 2^64 - 1 requests every legal CREATE TABLE succeeds, and every legal INSERT exactly when its row fits a page |
| `Refinement.RunRefines` | src/sql_engine.cpp:93-134 | the same from any linked database, given a bound on the page ids it has used; the table id counter never decreases, and a table listed at the end is one listed before under the same name and id, or has an id not used before |
| `Refinement.StatementRefines` | src/sql_engine.cpp:101-133 | one statement moves the abstract database as its specification says, uses at most one root or one page id per table, and reuses no table id |
| `Refinement.SelectRefines` | src/execution/default_executor.cpp:183-350 | SELECT changes nothing; it fails for its first fault, or answers over a listing of the table's bag what the source statement means |
| `Refinement.InsertRefines` | src/execution/default_executor.cpp:134-181 | INSERT fails for its first fault, or adds the row its source values mean to its table's bag and no other, or fails and changes nothing; while page ids are ample a legal one succeeds exactly when its record fits a page, else fails with InvalidArgument, and only once they are used up it may fail with Internal |
| `Refinement.CreateRefines` | src/execution/default_executor.cpp:96-132 | CREATE TABLE fails for its first fault, or adds an empty table of the columns it defines; a legal one fails only once page ids are used up, with Internal, and leaves the tables as they were |
| `Refinement.CreatedTable` | src/execution/default_executor.cpp:96-132 | creation succeeds exactly while roots are left; without a root no table remains |
| `Refinement.InsertSucceedsExactly` | src/execution/default_executor.cpp:134-181 | a legal INSERT succeeds exactly when the row encodes and its record fits some page or a fresh page |
| `Refinement.RowsStoredInOrder` | src/execution/default_executor.cpp:156-180 | several rows are stored in order until one fails; those before it stay, and no other table changes |
| `Refinement.AnswerIsOrderIndependent` | src/execution/default_executor.cpp:183-281 | two listings of one bag give the same columns and the same bag, or both fail |
| `Refinement.FailureChangesNothing` | src/sql_engine.cpp:93-134 | a text that the engine answers with an error leaves every table's schema and rows as they were |
| `Refinement.ListedTablesOpen` | src/execution/default_executor.cpp:113-131 | every listed table has a valid root that OpenHeap accepts, and a scan lists its bag |
| `Refinement.ReachableTablesOpen` | src/execution/default_executor.cpp:113-131 | the same in every state a run can reach, with a record count equal to the number of rows |
| `Session.TrimStrips` | src/main.cpp:33-41 | trimming removes blanks at both ends and nothing else |
| `Session.TrimExactly` | src/main.cpp:33-41 | a text between blanks that has none at its ends is what trimming gives |
| `Session.ExitCommandsExactly` | src/main.cpp:43-47 | an exit command is one of four words between blanks, and nothing else |
| `Session.OneRequest` | src/main.cpp:163-183 | a text becomes one trimmed request in an active read-write transaction exactly when it is not all blank |
| `Session.LinesReadExactly` | src/main.cpp:223-243 | reading ends with the lines or at the first exit command typed on a buffer of blanks |
| `Session.TypingIsRunningTheScript` | src/main.cpp:216-250 | typing a script line by line, up to the line that ends the session, runs the same texts as running it whole |
| `Session.ScriptsRefine` | src/main.cpp:185-197 | a script run by a new session is a run of the abstract database with the same replies |
| `Session.CommandSession.RunStatement` | src/main.cpp:163-183 | runs the trimmed statement in a default transaction, skips empty ones, and reports success as the code does |
| `Session.CommandSession.RunSqlText` | src/main.cpp:185-197 | the loop runs every statement and a non-blank remainder, and succeeds exactly when all replies do |
| `Session.CommandSession.RunRepl` | src/main.cpp:216-250 | the reading loop runs the specified texts, exit commands included |
| `HostedIo.AccessExactly` | src/storage/memory_block_device.cpp:59-84 | access is granted if and only if the device is usable and the range is whole blocks inside it; otherwise InvalidArgument |
| `HostedIo.RequestsExactly` | src/runtime/hosted_platform_runtime.cpp:247-290 | a read or write moves its bytes and reports its length if and only if that is positive, at most 2^20, fits the buffer and access is granted; a flush succeeds if and only if at most 2^20 bytes are asked for and granted; anything else is InvalidArgument and changes nothing |
| `HostedIo.RequestCompletes` | src/runtime/hosted_platform_runtime.cpp:228-294 | an accepted request adds one completion under its own or the next automatic id with the outcome of performing it, NotSupported without a device |
| `HostedIo.PollExactly` | src/runtime/hosted_platform_runtime.cpp:296-312 | polling hands out the oldest completions, as many as fit, keeps the rest, and refuses an empty output |
| `HostedIo.DeviceExactly` | src/storage/memory_block_device.cpp:12-22 | a geometry is usable if and only if it is a positive whole number of blocks; the device is then all zero |
| `HostedIo.SubmitExactly` | src/runtime/hosted_platform_runtime.cpp:190-223 | a batch is accepted exactly with 1 to 64 reads, writes or flushes with known flags that the queue of 1024 has room for, and reports their number and first id; a rejected batch changes nothing |
| `HostedIo.HostedRunsKeepTheQueue` | src/runtime/hosted_platform_runtime.cpp:190-312 | over every run: one completion per accepted request in order with its id and user data, at most 1024 queued, automatic ids strictly increasing, the device the fold of all successful writes |
| `HostedIo.RunsKeepTheQueue` | src/runtime/hosted_platform_runtime.cpp:190-312 | the same from any state a run has reached |
| `HostedIo.ReadsSeeEarlierWrites` | src/runtime/hosted_platform_runtime.cpp:249-261 | a successful read returns the original bytes with all earlier successful writes applied, and touches nothing else |
| `HostedIo.LastWriteWins` | src/storage/memory_block_device.cpp:44-53 | folding writes means each byte is that of the last write covering it |
| `HostedIo.FailedRequestsChangeNothing` | src/runtime/hosted_platform_runtime.cpp:236-290 | a failed request, the NotSupported one of a runtime without device included, changes neither device nor buffers and transfers nothing |
| `HostedIo.IdsAreUniqueExactly` | src/runtime/hosted_platform_runtime.cpp:228-234 | over every run the automatic ids are 1 to n in order, and the ids of accepted requests are pairwise distinct if and only if the ids chosen by callers are pairwise distinct and each is beyond n |
| `HostedIo.AutomaticIdsMayCollide` | src/runtime/hosted_platform_runtime.cpp:229-232 | an input for which ids coincide: a caller that supplies the next automatic id shares it with the next automatic request |
| `HostedIo.MemoryBlockDevice.constructor` | src/storage/memory_block_device.cpp:12-22 | a usable geometry gives zeroed bytes, any other a device that refuses every access |
| `HostedIo.MemoryBlockDevice.ReadInto` | src/storage/memory_block_device.cpp:32-42 | copies the device range into the front of the buffer, or changes nothing |
| `HostedIo.MemoryBlockDevice.WriteFrom` | src/storage/memory_block_device.cpp:44-53 | copies the front of the buffer over the device range, or changes nothing |
| `HostedIo.HostedPlatformRuntime.PerformRequest` | src/runtime/hosted_platform_runtime.cpp:247-290 | performs one request on device and buffers as specified |
| `HostedIo.HostedPlatformRuntime.SubmitIoBatch` | src/runtime/hosted_platform_runtime.cpp:190-294 | the loops accept or reject the batch and change the state as specified |
| `HostedIo.HostedPlatformRuntime.PollIoCompletions` | src/runtime/hosted_platform_runtime.cpp:296-312 | moves the oldest completions out, as many as fit |

## Left out

- C interface adapters, page allocation, clock, logging, task spawning, terminal and file handling: calls into the host.
- B-tree, buffer pool, write-ahead log and transaction manager headers: interfaces without an implementation.
- Tracing, benchmarks and build tooling.
- Error message texts and token source ranges inside error messages: only error codes are compared.
- Null pointers and objects whose kind disagrees with their class: not representable in datatypes.
- Custom optimizer rules and catalog or storage back ends other than the built-in ones.
- Overflow of 64-bit table, index and request ids: they are natural numbers; exhaustion of page ids and root ids is modelled.
- Expression and plan trees rewritten in place through owning pointers: each tree has one owner, so rewriting is modelled on values.
- Record views that stay attached to a page buffer after it changes: a view is the bytes at the time of the read.
- I/O buffers that overlap only in part: two requests name the same whole buffer or disjoint ones.
- std::stoll on integer lexemes the lexer cannot produce, such as signs or trailing letters: treated as parse errors.
- The unordered_map iteration order behind the table listing: the listing is described by its contents and order by id.
- Printing of replies and prompts, and reading of files and the terminal: replies are returned, and lines are a parameter.
- TupleBatch, ColumnVector and the other batch structures: declared, never used by the executor.
- `TableStorage.InMemoryTableStorage.Open`: leaves out NotSupported for a storage method other than heap, because heap is the only method the enumeration has (include/mattsql/storage/table_storage.hpp:15).
- `Refinement.InsertRefines`: is about the plans the planner makes, which insert one row; `Refinement.RowsStoredInOrder` covers several rows, of which those before a failing one stay.
- `LiteralRoundTrip.LiteralsRoundTrip`: leaves out NULL, whose spelling is a keyword and not a formatted value.
- `SourceText.StatementTextParsesBack`: puts one blank before every word; other blanks and comments between tokens are covered by `LexerTiling.TokensTileTheInput`.
