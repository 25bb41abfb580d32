# A verified model of the text engines and stores

The application is a desktop database client. Its screens and drivers are not modelled here; its
hand-written scanners, matchers and bounded stores are, and what they promise is proved.

- **Running a SQL script.** A file is read in chunks, decoded from UTF-8 as it arrives (`Utf8`), stripped of
  a byte-order mark and fed to an incremental lexer that cuts it into statements (`SqlLexer`, `SqlScript`,
  `SqlStream`). Proved: where the chunks are cut makes no difference, with the one exception the code has and
  its exact condition (`SqlChunking`); the statements are slices of the file at the offsets and lines they
  name (`SqlProvenance`); nothing but white space, comments that are not executed, delimiters and DELIMITER
  lines is dropped (`SqlCoverage`); a DELIMITER line does what its values say, however it is written
  (`SqlDirective`); a script put together from statements, and from sections with a delimiter of their own, is split
  into those statements, whatever their literals and comments contain (`SqlScriptPieces`, `SqlSections`); a script that
  ends inside a construct is cut short or refused as it should be (`SqlEndings`); an error names its cause and its
  place (`SqlFailures`, `SqlStreamOffsets`).
- **The write guard.** Before a statement runs, its literals and comments are blanked (`SqlBlank`) and the rest
  is judged (`SqlGuard`, `SqlGuardLoops`). Proved: blanking keeps exactly the code, dialect by dialect
  (`SqlBlankPieces`), is idempotent and composes over statements (`SqlBlankFacts`, `SqlSplit`); the three
  verdicts are disjunctions over the statements and do not depend on what literals say (`SqlSim`,
  `SqlVerdicts`); on PostgreSQL, where SET statements are also judged on their raw text by a second scanner, they
  do not exactly under a condition that is worked out (`SqlPgLiteral`, `SqlPgScanners`, `SqlPgUndecided`,
  `SqlPgStraddle`, `SqlPgBodies`, `SqlPgExact`); each verdict on a statement is said by the words that
  stand in it (`SqlMeaning`, `SqlGuardMeaning`, `SqlExplain`, `SqlPgSpelling`) and each verdict on a script by its
  statements (`SqlJudged`); the engines differ in what they take for text (`SqlEngines`); the search for an UPDATE or
  DELETE without WHERE decides a property of the tree that the parentheses describe (`SqlUnfiltered`).
- **The shell.** Its LIKE matcher against the definition of LIKE (`ShellLike`), its delimited reader and its command-line
  grammar over the ways of writing their input (`ShellDelimited`, `ShellFields`, `ShellPipeline`, `ShellWords`), its
  sort comparator (`ShellSort`).
- **The history store.** Statement fingerprints as a normal form (`HistoryFingerprint`, `HistoryNormalForm`,
  `HistoryShapes`, `HistoryPlain`), retention that is amortised over inserts (`HistoryRetention`), three snapshot
  tables that stay coherent and hold what was saved (`HistorySnapshots`, `HistorySaved`), snapshot differences that
  telescope and are listed in order (`HistoryDiff`, `HistoryListing`, `HistoryConservation`), cluster events
  without repeats (`HistoryGalera`, `HistoryRepeats`).
- **Smaller parts.** The flood fill of the icon tool as reachability (`IconFill`), the Redis command line in
  every spelling and its classification (`RedisGuard`, `RedisSpelling`), line endings of SQL files (`SqlFile`).

Code that works in place is a class, an array or a loop here too, proved against a function of the inputs or
of the old state; the lemmas are about that function. SQL tables are sequences in the order of their ids, or
maps. `Common` holds what the modules share.

The code departs from its documentation, or from what it is for, in eight places. The model follows the code,
and each has a lemma that gives the input or the exact condition:

- A cut between `/*` and `!` loses a versioned comment (`SqlChunking.ExactCut`).
- The byte named for input that is not UTF-8 is too far by what a read before it left of a broken-off character
  (`SqlStreamOffsets.OffsetExactly`, `SqlStreamOffsets.OffsetTooFar`).
- LIKE compares with a literal `%` before it tries the wildcard (`ShellLike.ExactTexts`, `ShellLike.ExactPatterns`).
- A file with mixed line endings is not left alone by opening and saving it (`SqlFile.OpenThenSaveKeeps`).
- Corners of an icon are queued more than once, so the background list counts them more than once
  (`IconFill.Flood`).
- The sort comparator is not an order on every column that mixes numbers and text, nor on one that has a `nan`
  among different numbers (`ShellSort.TransitiveWhenSeparated`, `ShellSort.MixedColumnGoesRound`,
  `ShellSort.NotANumberGoesRound`).
- On PostgreSQL the two scanners of a SET statement part at a backtick, a versioned comment or hint, and an E''
  literal, and there a literal can change the write verdict (`SqlPgScanners.BacktickMatters`,
  `SqlPgScanners.VersionedCommentMatters`, `SqlPgScanners.EscapeLiteralMatters`). The exact condition is
  `SqlPgExact.LiteralsAreImmaterial`.
- A snapshot that names a digest twice gives changes that need not add up (`HistoryDiff.RepeatedIdsLoseLoad`; for
  which ids they do is `HistoryConservation.ConservedForEveryLoad`).

Two more depend on the clock of the database stepping back: a snapshot can delete itself when it is saved
(`HistorySnapshots.SaveKeepsItself`), and a cluster event can be stored twice in a row
(`HistoryGalera.SteppingBackRepeats`; exactly when is `HistoryRepeats.RecordRepeats`).

To check everything: `dafny verify dfyconfig.toml --resource-limit 2000000`.

## Model

| member | source | states |
|---|---|---|
| `Utf8.IncrementalUtf8.Push` | src-tauri/src/sqlscript.rs:455-474 | one push returns the longest decodable front of what is pending and keeps the rest, or fails, as the specification of a push says |
| `Utf8.IncrementalUtf8.Finish` | src-tauri/src/sqlscript.rs:475-480 | finishing succeeds only when nothing is pending |
| `Utf8.ValidIsWellFormed` | src-tauri/src/sqlscript.rs:455-474 | the library's validity check accepts exactly sequences of characters well-formed under section 4 of RFC 3629 |
| `Utf8.PushKeepsPending` | src-tauri/src/sqlscript.rs:449-474 | what stays pending is a proper prefix of a well-formed sequence, so at most three bytes |
| `Utf8.PushSplits` | src-tauri/src/sqlscript.rs:455-474 | one push neither accepts an input that is already broken nor refuses one that can still be completed |
| `Utf8.SessionDecodes` | src-tauri/src/sqlscript.rs:449-480 | for every way of cutting the input, decoding succeeds exactly when the whole is well-formed, and the returned texts joined are the whole input |
| `Utf8.PendingIsIncomplete` | src-tauri/src/sqlscript.rs:475-480 | what a session may leave pending is well-formed only when it is nothing, so input that ends inside a sequence is refused |
| `SqlScript.MysqlSplitter.constructor` | src-tauri/src/sqlscript.rs:512-519 | a new splitter is at line 1, in code, with the semicolon as delimiter |
| `SqlScript.MysqlSplitter.Append` | src-tauri/src/sqlscript.rs:733-746 | the byte joins the buffer, a statement starts at its first byte that is not white space, and the limit is enforced |
| `SqlScript.MysqlSplitter.Consume` | src-tauri/src/sqlscript.rs:748-757 | offset, line and line start move past the byte |
| `SqlScript.MysqlSplitter.OneTurn` | src-tauri/src/sqlscript.rs:548-690 | one turn of the loop leaves still to be run exactly what the whole run still owes |
| `SqlScript.MysqlSplitter.Process` | src-tauri/src/sqlscript.rs:545-693 | the loop does to the fields what the run of the lexer does to its state, and keeps the bytes it waits on |
| `SqlScript.MysqlSplitter.Feed` | src-tauri/src/sqlscript.rs:521-524 | feeding processes what was pending with the new text, and what remains undecided stays pending |
| `SqlScript.MysqlSplitter.Finish` | src-tauri/src/sqlscript.rs:526-543 | finishing decides what is pending, reports an unterminated construct, and emits a last statement that has code |
| `SqlScript.PreviousIsLast` | src-tauri/src/sqlscript.rs:695-707 | after every step the remembered byte is the last one read, which is the byte before the delimiter test |
| `SqlDirective.DirectiveDecides` | src-tauri/src/sqlscript.rs:545-567 | at the start of a line, "delimiter" in any letter case with values and white space behind it, up to a line feed or the end: one value of at most 32 bytes becomes exactly the delimiter, nothing is emitted and the position moves past the line; no value, several, or a longer one is the matching error, and so is a statement open there |
| `SqlDirective.LineLex` | src-tauri/src/sqlscript.rs:709-731 | every well-formed line whose first word is "delimiter" is written that way, so the row above decides all of them |
| `SqlDirective.OtherLines` | src-tauri/src/sqlscript.rs:549-572 | every other line, one with white space before the word or with broken UTF-8 included, is no directive and is read byte by byte |
| `SqlChunking.StepStable` | src-tauri/src/sqlscript.rs:545-693 | a step that does not wait does the same when more input is at hand, unless it opens a block comment before an unseen `!` |
| `SqlChunking.ChunkingInvariance` | src-tauri/src/sqlscript.rs:521-693 | for every cutting without an unsafe cut, feeding the pieces and finishing gives the statements with line and offset, the final state or the error that the whole text gives |
| `SqlChunking.ChunkingInvarianceText` | src-tauri/src/sqlscript.rs:521-693 | the same, for every cutting that never falls between `/*` and a following `!` |
| `SqlChunking.ExactCut` | src-tauri/src/sqlscript.rs:592-594 | a cut is invisible for every continuation if and only if it does not follow a bare `/*`, or the limit leaves no room for the comment to close |
| `SqlChunking.BlindRun` | src-tauri/src/sqlscript.rs:592-606 | what such a cut changes: the comment's code flag is set in the whole text and missing in the cut one |
| `SqlChunking.CarryBound` | src-tauri/src/sqlscript.rs:586-642 | after a successful feed the carry-over is at most two bytes or a delimiter, unless a line starting with d or D awaits its newline |
| `SqlProvenance.Provenance` | src-tauri/src/sqlscript.rs:545-776 | the statements of a script are its slices at their offsets, on their lines, in order, disjoint, trimmed, none longer than the limit |
| `SqlProvenance.ChainMeans` | src-tauri/src/sqlscript.rs:733-776 | for each statement: offset and length lie in the text, the slice there is the statement, its line is one more than the newlines before it; any two are ordered and disjoint |
| `SqlCoverage.NoCodeLost` | src-tauri/src/sqlscript.rs:545-693 | when a script splits, every byte read as code lies in an emitted statement, the body of an executed `/*!` comment included: only white space, other comments, delimiters and DELIMITER lines lie outside |
| `SqlScriptPieces.PieceRun` | src-tauri/src/sqlscript.rs:572-688 | a quoted part with its escapes and doubled quotes, a block comment up to its first end, or a line comment is read as one piece |
| `SqlScriptPieces.ScriptSplits` | src-tauri/src/sqlscript.rs:545-693 | statements made of code, quoted parts and comments, joined by any delimiter that stands clear of them, are split into exactly those that have code, trimmed and in order |
| `SqlScriptPieces.SplitUndoesScript` | src-tauri/src/sqlscript.rs:512-693 | the same for a new splitter, semicolons, and every safe cutting of the script |
| `SqlScriptPieces.TrimmedMeans` | src-tauri/src/sqlscript.rs:766-776 | a trimmed statement is the slice without the white space at both ends |
| `SqlSections.SectionsSplit` | src-tauri/src/sqlscript.rs:545-731 | a script of sections with DELIMITER lines between them is split section by section, each by the delimiter that the line above it sets |
| `SqlSections.SplitUndoesSections` | src-tauri/src/sqlscript.rs:512-731 | the same for a new splitter and every safe cutting of the script |
| `SqlSections.WrongLineStops` | src-tauri/src/sqlscript.rs:556-725 | behind a section, a directive line that is malformed or finds a statement open ends the split with its error, which names its line |
| `SqlEndings.ScriptEnds` | src-tauri/src/sqlscript.rs:526-543 | behind statements, a line comment that the end of the script cuts short belongs to the last statement; a block comment, a string or a quoted name left open is the error that names the construct and the last line |
| `SqlFailures.FinishExplained` | src-tauri/src/sqlscript.rs:526-757 | every error of a script is explained by it: a statement that has grown one byte over the limit and the line of its first byte, a directive line and its number, or a construct left open at the end |
| `SqlStream.DecodeStream` | src-tauri/src/sqlscript.rs:288-347 | the read loop returns what the specification of a stream says: the accepted statements in order, or the first error |
| `SqlStream.StreamIsSession` | src-tauri/src/sqlscript.rs:288-347 | interleaving decoding, splitting and checking is decoding all, then splitting, then checking |
| `SqlStream.RefusedIsFirst` | src-tauri/src/sqlscript.rs:316-319 | the statement a scan refuses is not accepted, and all before it are |
| `SqlStream.FedIsStripped` | src-tauri/src/sqlscript.rs:300-320 | dropping the mark from the first text that is not empty drops it from the whole decoded text |
| `SqlStream.CutIsACut` | src-tauri/src/sqlscript.rs:288-347 | a cut of the decoded texts between `/*` and `!` comes from such a cut of the bytes |
| `SqlStream.EndToEnd` | src-tauri/src/sqlscript.rs:288-347 | if no read ends between `/*` and `!`, a scan succeeds exactly when the bytes are well-formed and their text without the mark splits into accepted statements, and then delivers those |
| `SqlStreamOffsets.OffsetExactly` | src-tauri/src/sqlscript.rs:305-309 | the byte reported for broken input is the end of the first broken sequence if and only if the read that brings it does not begin inside a character; otherwise it is up to three bytes too far |
| `SqlStreamOffsets.OffsetTooFar` | src-tauri/src/sqlscript.rs:305-309 | a broken sequence that ends at byte 1, read as two chunks of one byte, is reported at byte 2 |
| `SqlStreamOffsets.EndExactly` | src-tauri/src/sqlscript.rs:327-330 | input that ends inside a character is reported at its length |
| `SqlBlank.BlankDialect` | src-tauri/src/sqlguard.rs:107-189 | the loop over characters computes the blanked text, of the same length, in every dialect |
| `SqlBlank.DollarTag` | src-tauri/src/sqlguard.rs:194-199 | finds the dollar tag that starts at a position, or that there is none |
| `SqlBlank.FindSeq` | src-tauri/src/sqlguard.rs:201-209 | finds the first occurrence of the tag at or after a position: before the result it stands nowhere, and with no result nowhere at all |
| `SqlBlankFacts.Survives` | src-tauri/src/sqlguard.rs:107-189 | each output character is the input character or a space, and one that is kept does not stand in or open anything blanked |
| `SqlBlankFacts.NothingOpens` | src-tauri/src/sqlguard.rs:107-189 | in blanked text no comment, quote or dollar opener is left |
| `SqlBlankFacts.Idempotent` | src-tauri/src/sqlguard.rs:107-189 | blanking twice is blanking once |
| `SqlBlankFacts.ReachStable` | src-tauri/src/sqlguard.rs:107-189 | what is blanked before a position in code does not depend on what follows it |
| `SqlBlankFacts.Compositional` | src-tauri/src/sqlguard.rs:107-189 | when the scanner ends a in code, blanking a;b is blanking a, a semicolon, and blanking b |
| `SqlBlankPieces.BlockLengthOf` | src-tauri/src/sqlguard.rs:123-154 | where comments nest, a comment ends where its tree of inner comments ends; elsewhere at the first closer |
| `SqlBlankPieces.TokenOfPiece` | src-tauri/src/sqlguard.rs:113-187 | line comments, versioned openers, block comments, dollar strings and quoted text are recognised whole, as the dialect reads them |
| `SqlBlankPieces.BlankOfPieces` | src-tauri/src/sqlguard.rs:107-189 | for every text made of such pieces and code, blanking keeps exactly the code, in place, and nothing else |
| `SqlEngines.HashComment` | src-tauri/src/sqlguard.rs:55-93 | a hash sign opens a comment on MySQL and without an engine, and is code elsewhere |
| `SqlEngines.Backslash` | src-tauri/src/sqlguard.rs:55-93 | a backslash keeps a quote from closing on MySQL, on ClickHouse and without an engine, and not elsewhere |
| `SqlEngines.NestedComment` | src-tauri/src/sqlguard.rs:55-93 | comments nest on PostgreSQL and SQL Server, and not elsewhere |
| `SqlEngines.DollarString` | src-tauri/src/sqlguard.rs:55-93 | text between dollar signs is blanked on PostgreSQL, on DuckDB and without an engine, and is code elsewhere |
| `SqlSplit.SplitAligned` | src-tauri/src/sqlguard.rs:471-487 | the loop cuts both texts at the separators of the blanked one |
| `SqlSplit.RejoinRestores` | src-tauri/src/sqlguard.rs:471-487 | the raw parts joined by semicolons are the input |
| `SqlSplit.BlankedSeparators` | src-tauri/src/sqlguard.rs:439-487 | a separator of the blanked text is one of the raw text, so both are cut at the same places |
| `SqlSplit.PartsBlankAlone` | src-tauri/src/sqlguard.rs:439-487 | blanking a raw part on its own gives the blanked part that is judged with it |
| `SqlSplit.SplitIsSeconds` | src-tauri/src/sqlguard.rs:439-487 | cutting the pair and cutting the blanked text alone give the same blanked parts |
| `SqlGuardLoops.HasWordMeans` | src-tauri/src/sqlguard.rs:288-305 | the scan finds a word exactly when it stands somewhere with no word character on either side |
| `SqlGuardLoops.HasWordLoop` | src-tauri/src/sqlguard.rs:288-303 | the byte loop decides that |
| `SqlMeaning.WriteMeans` | src-tauri/src/sqlguard.rs:338-394 | a statement writes exactly when the word that leads it is in the table or, for SET, START, WITH, COPY, PREPARE and SELECT, the words stand in it as whole words that make it a write, each said for its own word; EXPLAIN, DESCRIBE and DESC as what they explain; anything else, and nothing, does not |
| `SqlMeaning.DangerMeans` | src-tauri/src/sqlguard.rs:653-676 | a statement is dangerous exactly when its leading word is in the table or is CLUSTER, or VACUUM with FULL, SYSTEM with one of six verbs, or REINDEX or REFRESH without CONCURRENTLY stands in it |
| `SqlMeaning.UnfilteredMeans` | src-tauri/src/sqlguard.rs:697-729 | a statement is unfiltered exactly when UPDATE, DELETE or WITH leads it and the tree of its parentheses has a group whose last verb is unfiltered |
| `SqlMeaning.LeadMeans` | src-tauri/src/sqlguard.rs:267-276 | the first word is the run of letters behind the leading white space, in any letter case |
| `SqlMeaning.NextMeans` | src-tauri/src/sqlguard.rs:278-286 | the word after it is the next run of word characters behind white space |
| `SqlJudged.SplitsIntoStatements` | src-tauri/src/sqlguard.rs:471-487 | a script made of pieces is cut at the semicolons of its code, raw and blanked alike |
| `SqlJudged.WriteOfScript` | src-tauri/src/sqlguard.rs:439-453 | for every engine, such a script is a write exactly when one of its statements, its comments and literals left out, is one by its words, or on PostgreSQL is a SET whose raw tokens flip the read-only switch |
| `SqlJudged.DangerOfScript` | src-tauri/src/sqlguard.rs:653-676 | and dangerous exactly when one of its statements is, by its words |
| `SqlJudged.UnfilteredOfScript` | src-tauri/src/sqlguard.rs:685-729 | and unfiltered exactly when one of its statements is, by the tree of its parentheses |
| `SqlGuardLoops.CopyWritesLoop` | src-tauri/src/sqlguard.rs:313-333 | the loop decides whether a COPY statement writes |
| `SqlGuardLoops.StripExplainLoop` | src-tauri/src/sqlguard.rs:398-430 | the loops strip EXPLAIN and its options as specified |
| `SqlGuard.StripExplain` | src-tauri/src/sqlguard.rs:340-430 | stripping EXPLAIN shortens the statement, so judging what remains terminates |
| `SqlGuardLoops.UnfilteredUpdelLoop` | src-tauri/src/sqlguard.rs:697-729 | the loop with its stack of flags computes the scan over the live flags |
| `SqlGuardLoops.PgSetTokens` | src-tauri/src/sqlguard.rs:495-574 | the loop yields the tokens of the raw statement |
| `SqlGuardMeaning.CopyMeans` | src-tauri/src/sqlguard.rs:307-335 | COPY writes exactly when, outside parentheses, FROM comes before any TO |
| `SqlExplain.StripUndoesPrefix` | src-tauri/src/sqlguard.rs:396-430 | a keyword, option words in any letter case with signs and values, and a list in balanced parentheses, with any white space around them, are stripped and nothing else |
| `SqlExplain.ExplainIsJudgedAsExplained` | src-tauri/src/sqlguard.rs:387-393 | EXPLAIN, DESCRIBE and DESC in any letter case, with any such prefix, write exactly when what they explain does |
| `SqlGuardMeaning.TokensUndoPrint` | src-tauri/src/sqlguard.rs:490-574 | reading the tokens of a printed SET statement gives them back, quoted names with quotes inside included |
| `SqlGuardMeaning.SetTarget` | src-tauri/src/sqlguard.rs:577-622 | a SET with any scope flips the switch exactly when the last component of its dotted name is one of the two read-only names, however each component is quoted |
| `SqlGuardMeaning.FlipsMeans` | src-tauri/src/sqlguard.rs:577-622 | tokens flip the switch exactly when they are a SET with a scope or none and a dotted name that ends in one of the two names, or SET SESSION or LOCAL CHARACTERISTICS with READ before WRITE |
| `SqlPgSpelling.TokensAreRead` | src-tauri/src/sqlguard.rs:495-574 | the scan of a raw statement gives its tokens however they are written: words in any letter case, quoted names, plain, escape and dollar strings, with comments, white space and other marks between |
| `SqlUnfiltered.ParseFlatten` | src-tauri/src/sqlguard.rs:697-729 | the tree of a text is the one its parentheses describe: writing it out gives the text back |
| `SqlUnfiltered.RefinesTree` | src-tauri/src/sqlguard.rs:697-729 | for every text that leads with UPDATE, DELETE or WITH, unmatched parentheses included, the verdict is true exactly when the last verb among UPDATE, DELETE and WHERE at the own level of some group is UPDATE or DELETE |
| `SqlVerdicts.VerdictsCompose` | src-tauri/src/sqlguard.rs:439-453 | when the scanner ends a in code, each of the three verdicts on a;b is the disjunction of the verdicts on a and on b, for every engine |
| `SqlSim.SimStatementWrite` | src-tauri/src/sqlguard.rs:340-396 | the write verdict on a statement does not see the lengths of runs of spaces |
| `SqlSim.SimUnfiltered` | src-tauri/src/sqlguard.rs:697-729 | nor does the unfiltered verdict |
| `SqlSim.SimSplit` | src-tauri/src/sqlguard.rs:471-487 | texts that differ in the lengths of runs of spaces are cut into parts that differ so |
| `SqlVerdicts.BlankAroundLiteral` | src-tauri/src/sqlguard.rs:167-183 | a properly escaped literal in code is blanked whole, and what stands around it is blanked as if alone |
| `SqlVerdicts.LiteralsDoNotMatter` | src-tauri/src/sqlguard.rs:439-729 | replacing the body of a properly escaped literal by any other, of any length, changes no dangerous-DDL or unfiltered verdict in any dialect, and no write verdict where only blanked text is judged |
| `SqlPgScanners.SameReach` | src-tauri/src/sqlguard.rs:107-189 | unless the blanker meets a backtick, a versioned comment or hint or an E'' literal before, the token scanner of PostgreSQL stops at every quote where the blanker does |
| `SqlPgScanners.PgLiteralsInCode` | src-tauri/src/sqlguard.rs:439-622 | on PostgreSQL the write verdict of a script does not depend on what a literal says, unless its own statement leads with SET and has one of the three in the code before it |
| `SqlPgScanners.PgLiteralsDoNotMatter` | src-tauri/src/sqlguard.rs:439-622 | the same with the condition on the text of that statement before the literal |
| `SqlPgUndecided.Decided` | src-tauri/src/sqlguard.rs:577-622 | once the tokens of a statement decide whether the switch flips, no tokens that follow change it |
| `SqlPgUndecided.Turns` | src-tauri/src/sqlguard.rs:577-622 | as long as they do not, some tokens that can follow turn the verdict |
| `SqlPgStraddle.LengthOver` | src-tauri/src/sqlguard.rs:495-574 | a token that reads over the quote of a literal is a comment, a text, a name or a dollar text, and goes on behind the quote as such |
| `SqlPgExact.OtherwiseMatters` | src-tauri/src/sqlguard.rs:439-622 | where the condition of the next row fails in the own statement, two bodies and what follows the literal are given that are judged differently |
| `SqlPgExact.LiteralsAreImmaterial` | src-tauri/src/sqlguard.rs:439-622 | for every text after which a literal can open: no literal there changes the write verdict, whatever it says and whatever follows, if and only if an earlier statement is a write, or its own leads with another word than SET, is a write as it stands, has the token scanner stand at the quote, or is decided by its tokens so far |
| `SqlPgScanners.EscapeLiteralMatters` | src-tauri/src/sqlguard.rs:495-622 | an E'' literal: the verdict on one SET LOCAL CHARACTERISTICS changes with what it says |
| `SqlPgScanners.VersionedCommentMatters` | src-tauri/src/sqlguard.rs:495-622 | a literal in a versioned comment: so does this one |
| `SqlPgScanners.BacktickMatters` | src-tauri/src/sqlguard.rs:495-622 | a literal behind a backtick with a quote in it: and this one |
| `ShellLike.LikeMatch` | src-tauri/src/txshell.rs:430-457 | the backtracking loop terminates and computes the match function |
| `ShellLike.MatchesMeans` | src-tauri/src/txshell.rs:436-455 | from any state of the loop, with no `%` of the pattern against one of the text, the loop succeeds exactly when the rest matches or a later start for the last wildcard would |
| `ShellLike.MatchesIsLike` | src-tauri/src/txshell.rs:430-457 | it decides LIKE as section 8.5 of ISO/IEC 9075-2 defines it for every text without `%` and every pattern without it |
| `ShellLike.ExactTexts` | src-tauri/src/txshell.rs:438-441 | a text is decided rightly against every pattern if and only if it has no `%` |
| `ShellLike.ExactPatterns` | src-tauri/src/txshell.rs:438-441 | a pattern is decided rightly on every text if and only if it has no `%` |
| `ShellDelimited.ParseRecords` | src-tauri/src/txshell.rs:492-527 | the record loop computes the records as specified |
| `ShellDelimited.ReadWritten` | src-tauri/src/txshell.rs:492-527 | reading lines written with every field quoted and quotes doubled yields their fields, for any separator but a quote and line breaks |
| `ShellDelimited.RoundTrip` | src-tauri/src/txshell.rs:492-527 | every list of records written so, with LF or CRLF ends, is read back (section 2 of RFC 4180), if and only if the last line is not both unterminated and one empty field |
| `ShellFields.FileIsRead` | src-tauri/src/txshell.rs:492-527 | lines of fields, bare or quoted side by side, with carriage returns anywhere outside quotes, are read as their fields; a last line of one field that says nothing is no record |
| `ShellPipeline.SplitPipeline` | src-tauri/src/txshell.rs:102-140 | the loop returns the parts, trimmed |
| `ShellPipeline.RejoinRestores` | src-tauri/src/txshell.rs:102-140 | the parts before trimming, joined by the pipeline operator, are the line |
| `ShellPipeline.SplitsAtPipe` | src-tauri/src/txshell.rs:98-101 | the operator is a boundary wherever no quote is open |
| `ShellPipeline.TextInQuotes` | src-tauri/src/txshell.rs:98-101 | where one is open it is text: the part goes on through it |
| `ShellPipeline.Tokenize` | src-tauri/src/txshell.rs:143-171 | the loop returns the words |
| `ShellPipeline.TokenizeUndoesPrint` | src-tauri/src/txshell.rs:142-171 | putting every single character of a word in quotes of its own and joining words by blanks is undone, for every list of words, empty ones and both kinds of quotes included |
| `ShellWords.StageIsRead` | src-tauri/src/txshell.rs:142-171 | words written as bare characters and quoted parts side by side, the last quote closed or not, with any white space around them, are read as what they say |
| `ShellWords.StageLex` | src-tauri/src/txshell.rs:142-171 | every stage is written that way |
| `ShellPipeline.SplitUndoesPrint` | src-tauri/src/txshell.rs:98-140 | a pipeline of printed stages is split into those stages, whatever the words contain |
| `ShellPipeline.PipelineRoundTrip` | src-tauri/src/txshell.rs:98-171 | splitting a printed pipeline and reading each stage gives every word of every stage back |
| `ShellSort.TransitiveWhenSeparated` | src-tauri/src/txshell.rs:270-279 | in either direction the comparator is transitive on a column if and only if every text of the column parts its numbers and a `nan` stands beside no two different numbers |
| `ShellSort.MixedColumnGoesRound` | src-tauri/src/txshell.rs:270-279 | 9, 10 and a text between them as texts go round in a circle |
| `ShellSort.NotANumberGoesRound` | src-tauri/src/txshell.rs:212-219 | on 2, nan, 1 the comparator is not transitive, though every cell reads as a number |
| `ShellSort.SortSorts` | src-tauri/src/txshell.rs:266-281 | on a column where the comparator is transitive the stage gives the same rows, in order, and rows with equal cells in the order they came in |
| `ShellSort.SortOrders` | src-tauri/src/txshell.rs:266-281 | of two rows of such a column the first has the smaller number, infinities at the ends, or, unless both cells are numbers, the text that comes first in a dictionary; descending, it is the other way round |
| `HistoryFingerprint.FingerprintSql` | src-tauri/src/history.rs:769-852 | the scan, the white-space pass and the list pass together compute the fingerprint |
| `HistoryFingerprint.ScanOne` | src-tauri/src/history.rs:774-836 | at each position the scanner replaces a closed comment, closed literal or standing-alone number, or copies one character |
| `HistoryFingerprint.CollapseInLists` | src-tauri/src/history.rs:720-764 | the loop replaces lists of placeholders and leaves everything that does not match alone |
| `HistoryNormalForm.RegionExit` | src-tauri/src/history.rs:779-835 | an escape inside a replaced part never reaches out of it: a quote that was open before it is open after it |
| `HistoryNormalForm.RawSettles` | src-tauri/src/history.rs:769-838 | a scanned statement holds no comment, closed literal or standing-alone number that a second scan would take |
| `HistoryNormalForm.CollapseTwice` | src-tauri/src/history.rs:720-764 | collapsing lists twice is collapsing them once |
| `HistoryNormalForm.Idempotent` | src-tauri/src/history.rs:769-852 | the fingerprint of a fingerprint is itself, for every statement |
| `HistoryShapes.CaseDoesNotMatter` | src-tauri/src/history.rs:766-768 | statements that are the same in lower case have one fingerprint |
| `HistoryShapes.LexSpells` | src-tauri/src/history.rs:769-838 | every statement is made of code characters, closed literals, numbers, comments and white space that read as such |
| `HistoryShapes.FingerprintOfPieces` | src-tauri/src/history.rs:769-852 | its fingerprint depends only on the sequence of code characters, literals and gaps |
| `HistoryPlain.PlainFingerprint` | src-tauri/src/history.rs:766-852 | where no list begins, the fingerprint is the words of the statement in lower case with literals as question marks, and one blank between each two |
| `HistoryPlain.WordsLex` | src-tauri/src/history.rs:839-850 | every text is words with white space between |
| `HistoryShapes.AlikeStatements` | src-tauri/src/history.rs:766-768 | statements that differ only in closed string and number literals, comments, letter case and white space, at the ends and between, have one fingerprint |
| `HistoryShapes.GapsAtTheEnds` | src-tauri/src/history.rs:766-768 | comments and white space in front of a statement or behind it do not change its fingerprint |
| `HistoryShapes.CollapseUpTo` | src-tauri/src/history.rs:720-764 | lists before a list are collapsed as if nothing followed |
| `HistoryShapes.ListLeaves` | src-tauri/src/history.rs:716-764 | a list of literals leaves `in (?)` whatever its length and spacing, unless a word character stands before it |
| `HistoryShapes.ListLengthDoesNotMatter` | src-tauri/src/history.rs:716-764 | statements that differ in the length of a list of literals have one fingerprint |
| `HistoryRetention.HistoryTable.InsertCapped` | src-tauri/src/history.rs:590-627 | the row is added under the next id, and on the cadence the table is pruned |
| `HistoryRetention.PruneKeepsNewest` | src-tauri/src/history.rs:562-571 | pruning leaves exactly the newest rows, at most as many as the cap |
| `HistoryRetention.RunCapped` | src-tauri/src/history.rs:562-627 | over every run of inserts and deletes the rows up to the last cadence are within the cap |
| `HistoryRetention.RollingBound` | src-tauri/src/history.rs:540-627 | over every run the table never holds more than the cap and one cadence less one row, and at most the cap right after a cadence insert |
| `HistoryRetention.InsertDropsNoNewest` | src-tauri/src/history.rs:590-627 | an insert never drops one of the newest rows within the cap |
| `HistorySnapshots.DigestStore.Save` | src-tauri/src/history.rs:1008-1088 | a save adds the snapshot, its rows and texts, rolls off the snapshots beyond the cap and drops texts no longer referred to |
| `HistorySnapshots.DigestStore.Delete` | src-tauri/src/history.rs:1169-1177 | deleting removes the rows and the snapshot |
| `HistorySnapshots.DeleteCoherent` | src-tauri/src/history.rs:1169-1177 | between the two steps of a delete, and after, no row lacks its snapshot or its text |
| `HistorySnapshots.RunCoherent` | src-tauri/src/history.rs:1008-1177 | over every run of saves and deletes, whatever the clock does, no row lacks its snapshot or its text |
| `HistorySnapshots.SaveKeepsNewest` | src-tauri/src/history.rs:1055-1073 | of the connection's snapshots exactly the newest within the cap are kept, and all of the other connections |
| `HistorySnapshots.SaveFitsCap` | src-tauri/src/history.rs:1055-1073 | a save leaves at most the cap of snapshots of its connection |
| `HistorySnapshots.SaveTexts` | src-tauri/src/history.rs:1042-1085 | the texts a save leaves for its connection are exactly those its rows refer to; those of other connections are as they were |
| `HistorySnapshots.SaveOtherRows` | src-tauri/src/history.rs:1008-1088 | the rows of other connections are as they were |
| `HistorySnapshots.SaveKeepsItself` | src-tauri/src/history.rs:1055-1073 | a save keeps its own snapshot if and only if fewer than the cap of its connection carry a later time |
| `HistorySaved.SaveStoresRows` | src-tauri/src/history.rs:1008-1088 | a save that keeps its own snapshot leaves it with exactly the given rows, in order, digests and counters as given |
| `HistorySaved.SaveKeepsRows` | src-tauri/src/history.rs:1008-1088 | the rows of every other surviving snapshot, of the same connection too, are as they were |
| `HistorySaved.SaveStoresTexts` | src-tauri/src/history.rs:1034-1085 | a surviving text that the save names is the last one given for its digest, cut after 8000 characters; one that it does not name is as it was |
| `HistorySaved.SavedTextIsThere` | src-tauri/src/history.rs:1034-1085 | the text of every saved digest of a kept snapshot is there |
| `HistorySaved.SaveKeepsLatest` | src-tauri/src/history.rs:1055-1073 | a snapshot of the connection survives a save if and only if fewer than the cap are later, by time and then by id |
| `HistoryDiff.DiffDigestRows` | src-tauri/src/history.rs:1474-1520 | the two passes and the sort compute the difference |
| `HistoryDiff.DiffSorted` | src-tauri/src/history.rs:1514-1519 | none of the entries is lost or added by sorting, and tied ones keep their order |
| `HistoryListing.DiffFalls` | src-tauri/src/history.rs:1514-1519 | of two entries the first has the larger rise of total time; with equal rises the larger rise of calls; with those equal too, the id that is a beginning of the other or less where they first differ |
| `HistoryListing.DiffLists` | src-tauri/src/history.rs:1474-1513 | the columns of every entry are those of the rows: text, change, calls, total and mean of the later row, and zeros for a digest that is gone |
| `HistoryDiff.DiffAt` | src-tauri/src/history.rs:1474-1513 | with distinct ids, each digest of either snapshot has exactly one entry, marked new, changed or gone as it should be, and no other digest has one |
| `HistoryDiff.ChangeOf` | src-tauri/src/history.rs:1474-1513 | the change of a digest is what the later snapshot holds of it less what the earlier holds |
| `HistoryDiff.Swap` | src-tauri/src/history.rs:1474-1520 | exchanging the snapshots negates every change and turns new into gone |
| `HistoryDiff.Telescope` | src-tauri/src/history.rs:1474-1520 | the difference from a to c is, digest by digest, that from a to b plus that from b to c |
| `HistoryDiff.Conservation` | src-tauri/src/history.rs:1474-1520 | with distinct ids all changes together are the later total less the earlier |
| `HistoryDiff.DiffSum` | src-tauri/src/history.rs:1474-1520 | with any ids they are the later total less what the earlier rows gave to the lookups and to the gone entries |
| `HistoryDiff.ConservedExactly` | src-tauri/src/history.rs:1474-1520 | with any ids, all changes together are the later total less the earlier if and only if what the lookups met and what was left are together the earlier total |
| `HistoryConservation.ConservedForEveryLoad` | src-tauri/src/history.rs:1474-1520 | whatever the loads, the changes add up if and only if no digest that both snapshots hold is repeated in either |
| `HistoryDiff.RepeatedIdsLoseLoad` | src-tauri/src/history.rs:291-301 | with a repeated id, which the table does not forbid, the totals can part |
| `HistoryGalera.GaleraTable.Record` | src-tauri/src/history.rs:1390-1443 | an observation that repeats the connection's latest is not stored; another is, and the rows behind the cap go |
| `HistoryGalera.RecordKeepsLast` | src-tauri/src/history.rs:1417-1443 | recording leaves the connection its last events within the cap if and only if the cap is not reached or the event recorded first is the oldest by the clock |
| `HistoryRepeats.RecordRepeats` | src-tauri/src/history.rs:1401-1443 | recording leaves two equal events one behind the other, where there were none, if and only if the connection is at its cap and its oldest event by the clock stands between two that tell the same |
| `HistoryRepeats.StoredUnlessTold` | src-tauri/src/history.rs:1409-1416 | an observation is not stored exactly when the connection's last row tells the same kind and the same summary, whatever its detail and its time; otherwise it takes the next id |
| `HistoryGalera.RunValid` | src-tauri/src/history.rs:1390-1443 | over every run, whatever the clock does, a connection never has more events than the cap |
| `HistoryGalera.RunRefinesExactly` | src-tauri/src/history.rs:1390-1443 | over every run the table holds throughout exactly the last observations of the connection within the cap, without repeats, if and only if each event recorded at the cap finds the first one to be the oldest |
| `HistoryGalera.RunRefines` | src-tauri/src/history.rs:1390-1443 | so it does when the clock does not step back between the calls of that connection |
| `HistoryGalera.NoRepeats` | src-tauri/src/history.rs:1401-1416 | and then no two consecutive events of the connection tell the same, and there are at most the cap |
| `HistoryGalera.SteppingBackRepeats` | src-tauri/src/history.rs:1430-1440 | with a cap of two, one event at 10, another at 5 and the first again at 6 leave the first stored twice in a row |
| `IconFill.Flood` | dev/make_icon.py:47-69 | the queue loop terminates; the background is exactly the white pixels joined to a white border pixel by a 4-connected white path, each listed as often as it was seeded |
| `IconFill.MakeTransparent` | dev/make_icon.py:37-88 | afterwards every pixel of the background is clear, every opaque pixel touching it is feathered once, and every other pixel, enclosed white included, is as it was |
| `IconFill.Alpha` | dev/make_icon.py:82-88 | the new alpha is the scaled brightness truncated to a byte, never below zero and never opaque |
| `IconFill.BrighterIsFainter` | dev/make_icon.py:82-88 | the brighter an edge pixel, the less of it remains |
| `IconFill.PixelMeans` | dev/make_icon.py:31-90 | channel by channel: the background is white without alpha, and only pixels that are not transparent and 238 or more in every channel belong to it, on the border all of them; an edge pixel keeps its colour, stays opaque up to a mean of 150, vanishes from 238 on, and fades in proportion between |
| `RedisGuard.SplitArgs` | src-tauri/src/redisguard.rs:357-430 | the loops return the arguments or the first error |
| `RedisGuard.SplitUndoesPrint` | src-tauri/src/redisguard.rs:357-430 | double-quoting each argument with `\` and `"` escaped is undone, for every list of arguments, empty ones included |
| `RedisSpelling.LineIsRead` | src-tauri/src/redisguard.rs:357-430 | a line is split into what its arguments mean, each bare, in single quotes, or in double quotes with every escape, with any white space around; it is refused for a quote left open, single or double, or for text right behind a closing one |
| `RedisSpelling.LineLex` | src-tauri/src/redisguard.rs:357-430 | every line is written in one of those ways |
| `RedisSpelling.SplitExactly` | src-tauri/src/redisguard.rs:357-430 | so splitting gives exactly the arguments, or exactly the one of the three errors, that the writing of the line calls for |
| `RedisSpelling.LineJudged` | src-tauri/src/redisguard.rs:225-256 | a line is judged by what its arguments mean, and one that breaks off is a write |
| `RedisGuard.CommandCatalog.WithServerWrites` | src-tauri/src/redisguard.rs:213-223 | the reported names join the writes and leave the reads; an empty report changes nothing |
| `RedisGuard.CommandCatalog.ClassifyArgs` | src-tauri/src/redisguard.rs:225-247 | the chain of lookups is the classification by key: a command, or a container with its subcommand |
| `RedisGuard.ReadExactly` | src-tauri/src/redisguard.rs:225-247 | a command is a read exactly when it is listed as one and as nothing worse, or is a bare container; whatever is listed nowhere is a write, and below a container administrative |
| `RedisGuard.ReportedCommands` | src-tauri/src/redisguard.rs:213-247 | a report turns exactly the commands it names into writes, unless they are administrative |
| `RedisGuard.ReportsOnlyTighten` | src-tauri/src/redisguard.rs:213-256 | a report never turns a mutating line into a read, and a line becomes mutating if and only if the report names its command |
| `SqlFile.DetectEol` | src-tauri/src/sqlfile.rs:74-102 | the counting loop finds the dominant kind of line break |
| `SqlFile.DominantMeans` | src-tauri/src/sqlfile.rs:91-101 | a kind of ending is found exactly when it makes at least nine tenths of the breaks, counted at the places where they begin, and LF where there are none; otherwise the text is mixed |
| `SqlFile.NormalizeTwice` | src-tauri/src/sqlfile.rs:106-116 | normalising to one ending and then to another is normalising to the second |
| `SqlFile.NormalizeCounts` | src-tauri/src/sqlfile.rs:106-116 | a normalised text has as many breaks as the original, all of the one kind |
| `SqlFile.OpenThenSaveKeeps` | src-tauri/src/sqlfile.rs:228-269 | opening and saving gives the original back if and only if its line breaks are all of one kind |

## Left out

- The decompressors, archive readers, hashing, file-change checks and channels around the splitter: library code and I/O. A stream is the sequence of chunks that a reader returns.
- SqlStream.DecodeStream: the check of a single statement is a parameter, and the progress events are not modelled.
- SqlScript.MysqlSplitter.Process: after an error the state of the splitter is not specified, because the program drops it.
- ShellFields.FileIsRead: a field whose quotes enclose nothing and are followed by carriage returns and another quote, and a quote that the file never closes, are read as the record loop says, but are not spelled out.
- Integer widths: offsets, lines, ids and counters are unbounded, and a depth of nested comments beyond 32 bits is not modelled.
- Letter case outside ASCII: the model folds ASCII letters only, so texts with other letters in literals, names or keywords are folded differently by the program.
- HistoryNormalForm.Idempotent: on text with letters outside ASCII the statement is about the model's folding, not the program's.
- SqlPgScanners.PgLiteralsInCode: a sufficient condition on one script; the exact one, over everything that can follow, is SqlPgExact.LiteralsAreImmaterial.
- The tables of keywords and commands: they are parameters, and the results hold for any tables. Only the words that the verdicts treat by name are fixed.
- `check_prod_limits` of both guards, `is_read_family` and the texts of error messages: finite switches over the verdicts.
- ShellSort.SortSorts: which texts read as numbers, and as which, is given with the cell.
- The other stages of the shell, its comparisons, JSON sources and the typing of cells behind the record reader: expressions over library parsers.
- ShellDelimited.ParseRecords: the header and the typed values made from the records are not modelled.
- Rounding of floating-point numbers: times in HistoryDiff and brightness in IconFill are exact, and a time that is not a number is not modelled.
- HistorySnapshots.DigestStore.Save: a save is one transaction in the program, so its intermediate states are not stated; the engine column is left out.
- HistoryRetention.HistoryTable.InsertCapped: the columns of a row are one payload, and deleting is by any criterion.
- `digest_stats`, the lists and searches of the history store, deadlock events, templates and migrations: queries without state of their own.
- SqlFile.OpenThenSaveKeeps: it is about the text; encodings, marks and the atomic replacement of the file are not modelled.
- IconFill.MakeTransparent: reading the picture, cropping, resizing and centring it are library calls; the set of edge pixels is visited in any order.
- The front end, menus, connections, drivers, password handling, import conversion and connection export.
