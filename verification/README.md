# Verification of the Exasol ADBC driver's algorithms

A Dafny 4.11 model of the parts of the driver, and of its coverage script, whose correctness is an
algorithm or a protocol rather than plumbing, with proofs of what they promise.

- `RustScanner`, `CfgPredicate`, `TestModules`, `TestItems`, `Lcov`, `LcovEntries`, `LcovReport`, `LcovAgain`:
  the script that removes test code from coverage reports. Comments and literals of Rust source are
  blanked in place, `cfg(...)` attributes are analysed, the line ranges of test modules are found and
  merged, and lcov records are rewritten with new totals. `TestItems` and `LcovEntries` are what the
  script reads, written out: modules with their attributes, and the entries of a record.
- `SessionMachine`, `AdbcConnection`: the connection, its session and the autocommit switch of the C
  interface, against a server that may refuse any request, with or without effect. The machine is a
  step function over whole runs; the classes update the same state in place and are proved to make its
  steps.
- `StatementMachine`, `FfiStatement`: the ADBC statement with its prepared handle and bound batch, in
  the same two forms.
- `PercentEncoding`, `ConnectionBuilder`, `ConnectionUri`: connection strings, with UTF-8, percent
  encoding (section 2.1 of RFC 3986) and query parameters applied in the order of a hash map.
- `SqlText`, `SqlClauses`, `CreateAppend`: emitted SQL, against a lexer for string literals (section 5.3 of ISO/IEC
  9075-2) and delimited identifiers (section 5.2).
- `ResultConversion`: rows of JSON values to Arrow columns, by reference and by value.
- `CsvRow`, `CsvReader`, `CsvText`, `CsvAgreement`: CSV lines to fields, fields to batches, the rows of a
  whole text, and when the line reader and the parser of the whole text agree.
- `GetObjects`: grouping of catalogue rows and the nested result in flat builders.
- `NumberText`, `HexText`: decimal text, the precision test, hex bytes, release versions.
- `Text`: strings and the few library operations on them.

`dafny verify dfyconfig.toml` checks the project.

## Where the code and its documentation differ

The model follows the code. The differences are stated as lemmas:

- The timeout rounding is documented never to turn a positive timeout into unlimited
  (src/adbc/connection.rs:39-44). Statements inherit whole milliseconds
  (src/adbc/connection.rs:298-304), so this holds of a statement's inherited timeout if and only if the
  connection's is at least one millisecond: `SessionMachine.InheritedLimitVanishesIff`, over whole runs
  `SessionMachine.ConfiguredTimeoutVanishesIff`, and for one input `SessionMachine.TinyTimeoutIsLost`.
- The documented scenario "Toggle autocommit" of the driver's transactions feature has it update
  autocommit on the server whenever the switch changes; switching on only commits
  (src/adbc_ffi.rs:1330-1366). A change that reports success reaches the server if and only if it
  switches off or autocommit was on there already (`SessionMachine.ToggleReachesServerIff`), and from a
  fresh connection that is what the caller did: the server's autocommit is on if and only if no call
  has switched it off with success (`SessionMachine.AutocommitIsWhatTheCallerDid`,
  `SessionMachine.SwitchIsHonouredIff`). `SessionMachine.TogglingLeavesWorkPending` is a run in which
  every request is answered well and the work stays uncommitted.
- The digit test of decimals is documented to count significant digits
  (src/arrow_conversion/builders.rs:140-153), but raw digits count too, and JSON integers are not
  held against the precision: `NumberText.PrecisionCheckIsExact`, `NumberText.LeadingZerosAreCounted`,
  `ResultConversion.IntegersSkipThePrecisionCheck`. Text with a column's own fraction digits is not
  affected: `NumberText.DecimalTextFits`.
- `create_append` rewrites the text of the whole DDL (src/adbc_ffi.rs:2196), names included. It changes
  nothing else if and only if no name and no type of the caller mentions CREATE TABLE:
  `CreateAppend.CreateAppendIsExact`; what it does to the names otherwise is
  `CreateAppend.CreateAppendIsRead`.
- A hex pair may begin with a plus sign: `NumberText.PlusIsAccepted`. Text is cut every two bytes of its
  UTF-8 (src/arrow_conversion/builders.rs:412-415), so decoding stops the program instead of returning
  an error exactly where `HexText.DecodePanicsIff` says; `HexText.AccentPanics` is one input.

Two parts of the code differ from one another: the CSV exports by lines and of a whole text. They read
the same rows, or both refuse, if and only if the text has an odd number of delimiters or every line is
a single row (`CsvAgreement.ParsersAgreeIff`), and yield the same batches whatever the schema and the
batch size if and only if the text is safe in the sense of `CsvAgreement.IsSafe`
(`CsvAgreement.ReaderAgreesWithExport`, `CsvAgreement.ReaderDisagreesElsewhere`).

## Model

| member | source | states |
|---|---|---|
| RustScanner.MaskNonCode | scripts/strip_test_coverage.py:59-104 | The in-place, position-driven loop terminates and ends with the rendering of the only segmentation of the source into code, comments and literals |
| RustScanner.LexIsTheOnlySegmentation | scripts/strip_test_coverage.py:59-169 | A list of segments is a valid cutting of the source, each token complete under the grammar or open to the end, if and only if it is the one the scanner finds; nested block comments, raw strings, escapes and char literals included |
| RustScanner.RawOpenerIsExact | scripts/strip_test_coverage.py:123-126 | A raw string with n hashes begins a text if and only if the text begins with r, br or cr, then n hashes, then a quote |
| RustScanner.RawTokenIsExact | scripts/strip_test_coverage.py:123-134 | A text is a whole raw string if and only if it is such an opener, a body, and the first quote that n hashes follow |
| RustScanner.MaskedSource | scripts/strip_test_coverage.py:59-67 | Masking keeps the length and every newline, turns each character into itself or a space, and leaves no quote and no comment opener |
| RustScanner.EndOfBlockComment | scripts/strip_test_coverage.py:107-120 | The depth-counting loop ends where the nested comment grammar ends |
| RustScanner.EndOfString | scripts/strip_test_coverage.py:137-147 | The loop that skips escapes ends at the literal's closing quote, or at the end of the source |
| RustScanner.EndOfToken | scripts/strip_test_coverage.py:75-104 | The token chosen at a position, and whether it is blanked, are those of the segmentation |
| CfgPredicate.SplitTopLevel | scripts/strip_test_coverage.py:195-211 | The loop yields the parts between the commas outside brackets, without a blank last part |
| CfgPredicate.SplitInvertsPrint | scripts/strip_test_coverage.py:195-211 | Splitting the printed arguments of any predicate tree gives back exactly the arguments, with any white space and trailing commas |
| CfgPredicate.SelectsIsTestOnly | scripts/strip_test_coverage.py:172-192 | On the printed text of every well-formed predicate tree the answer is the structural rule on the tree |
| CfgPredicate.SelectedMeansTestBuild | scripts/strip_test_coverage.py:172-192 | A predicate that is selected holds only in builds that set `test` |
| CfgPredicate.TestOnlyIsExact | scripts/strip_test_coverage.py:172-192 | Where `test` stands under no `not`, no flag occurs both negated and not, and no empty `any()` stands under an even or empty `all()` under an odd number of `not`, the rule says yes if and only if every satisfying build sets `test` |
| CfgPredicate.TestOnlyIsExactWithoutNegation | scripts/strip_test_coverage.py:172-192 | So without `not` and without an empty `any()` |
| CfgPredicate.NegationIsNotAnalysed | scripts/strip_test_coverage.py:172-192 | With `test` under a `not` the rule is only sound: `not(not(test))` holds in test builds only and is not selected |
| TestModules.MatchingBracket | scripts/strip_test_coverage.py:302-312 | The loop returns the end that the bracket count of the remaining text gives |
| TestModules.ClosingLengthIsLeast | scripts/strip_test_coverage.py:302-312 | The end returned leaves nothing open and is the least such end; none is returned only when there is none |
| TestModules.NothingClosesEarlier | scripts/strip_test_coverage.py:302-312 | From an opening bracket on, every shorter piece of text has a bracket open |
| TestModules.LineOf | scripts/strip_test_coverage.py:315-331 | The binary search over line starts equals one plus the newlines before the offset |
| TestModules.MergeOverlapping | scripts/strip_test_coverage.py:334-341 | The merged ranges are disjoint and increasing, cover exactly the lines of the given ones, and begin exactly where a group of overlapping ranges begins |
| TestModules.FindModuleHeader | scripts/strip_test_coverage.py:276-299 | The loop over further attributes finds the header that the recursive reading of the text gives |
| TestModules.FindTestModules | scripts/strip_test_coverage.py:259-273 | The modules found are exactly those that begin at some `#[cfg(` of the masked text, each once, their attributes in increasing order |
| TestModules.FindTestModuleRanges | scripts/strip_test_coverage.py:223-234 | The ranges are disjoint and increasing, and a line lies in one of them if and only if it lies in the span of some inline test module of the source |
| TestModules.TestOnlyModulePaths | scripts/strip_test_coverage.py:237-250 | A path is returned if and only if some out-of-line test module declared in the source may live there |
| TestModules.PrintedAttributeIsRead | scripts/strip_test_coverage.py:259-273 | An attribute printed from a predicate tree marks a test module if and only if the tree is test-only and a module header follows |
| TestItems.ModuleAtIsExact | scripts/strip_test_coverage.py:253-312 | A module is found at a position if and only if an item is written there: the attribute with white space between its tokens, a selected argument with matching brackets, further attributes, a visibility, `mod`, a name, and a brace or a semicolon; its name is the item's and its body is at the brace |
| TestItems.PrintedModuleIsRead | scripts/strip_test_coverage.py:253-312 | Such an item over a predicate tree is a test module if and only if the tree is test-only and a brace or a semicolon follows: at a brace with its body there, at a semicolon without one, and no module at any other character |
| TestItems.LinesOfPrintedModule | scripts/strip_test_coverage.py:223-234 | Its range runs from the attribute's line to the line of the least balanced closing brace, or of the last character when there is none; without a test-only tree there is no range |
| TestItems.FilesOfPrintedModule | scripts/strip_test_coverage.py:237-250 | An item that ends in a semicolon under a test-only tree may have exactly two files, its name's and `mod.rs` in a directory of that name; other items have none |
| Lcov.HasKeyIsPrefix | scripts/strip_test_coverage.py:477-498 | Comparing the text before the first colon is the same as testing for the prefix `KEY:` |
| Lcov.IntIsExact | scripts/strip_test_coverage.py:507-527 | A field reads as a number if and only if it spells it: white space, maybe a sign, groups of digits with single underscores between, white space |
| Lcov.StrippingIsExact | scripts/strip_test_coverage.py:461-474 | The output lines are, in order, the lines at exactly the surviving positions: entries outside the ranges, execution counts whose function name was not dropped, and all other lines; only the number of a total may differ |
| Lcov.TotalsAreExact | scripts/strip_test_coverage.py:487-504 | Every LF, LH, BRF, BRH, FNF and FNH line of the output states the count over the output's own lines and reads back as it, and the reported totals are these counts |
| Lcov.CountIsCardinality | scripts/strip_test_coverage.py:492-504 | A count is the number of positions whose line is counted |
| Lcov.StrippingIsIdempotent | scripts/strip_test_coverage.py:461-474 | Stripping a stripped record with the same ranges returns it unchanged |
| Lcov.OnlyCoverageMatters | scripts/strip_test_coverage.py:344-345 | Two range lists that cover the same lines strip every record alike, so merging ranges changes no output |
| LcovEntries.StrippingWritten | scripts/strip_test_coverage.py:461-522 | Stripping a record written from entries leaves exactly the entries outside the ranges, without the calls of functions declared inside, and states and reports the totals of what is left |
| LcovEntries.CountsIsRead | scripts/strip_test_coverage.py:492-522 | A written line counts for a total if and only if its entry does: a hit line or function has a count above zero, a taken branch a number above zero and not the dash |
| LcovEntries.EntryLineIsRead | scripts/strip_test_coverage.py:507-522 | The line of a written DA, BRDA or FN entry is the number written, whatever follows it |
| LcovEntries.FunctionNameIsRead | scripts/strip_test_coverage.py:507-522 | The name of a written FN or FNDA entry is the name written, commas included |
| LcovReport.SplitRecords | scripts/strip_test_coverage.py:447-458 | The loop yields the records of the report |
| LcovReport.RecordsAreTheOnlySplit | scripts/strip_test_coverage.py:447-458 | A list of records is a split of the lines, each ending at its first end line and naming its last source, if and only if it is the one produced |
| LcovReport.RecordsConserveLines | scripts/strip_test_coverage.py:447-458 | The records' lines joined are the report's lines |
| LcovReport.SourceIsExact | scripts/strip_test_coverage.py:447-458 | A record's source is a path if and only if its last line that begins with SF: holds it between white space, and there is none without such a line |
| LcovReport.EndIsExact | scripts/strip_test_coverage.py:447-458 | A line ends a record if and only if it is the end word between white space |
| LcovReport.StripLcov | scripts/strip_test_coverage.py:375-408 | A missing source is reported first and exactly when some named source cannot be read; otherwise the output is assembled record by record: verbatim without a source, left out for out-of-line test files, stripped by exactly the test lines of its source, or the failure of the first malformed record |
| LcovReport.OutcomeIsDetermined | scripts/strip_test_coverage.py:375-408 | Any two outcomes that `StripLcov` admits for one report and its sources are equal, the excluded files included, so its contract fixes the result |
| LcovAgain.StrippingAReportAgain | scripts/strip_test_coverage.py:375-408 | Stripping the output of a successful strip finds every source, succeeds, writes the same lines and reports the same summary |
| LcovAgain.StrippedIsWhole | scripts/strip_test_coverage.py:447-474 | A stripped record is a record again: it keeps its source and its end line and ends nowhere before |
| LcovReport.SummaryCountsTheReport | scripts/strip_test_coverage.py:411-419 | The summary's found and hit totals are the sums over the files kept, and equal the counts over the written report apart from records without a source |
| NumberText.DecimalTextIsExact | src/adbc_ffi.rs:1900-1921 | For every raw value and scale from 0 to 38 the printed text reads back as the raw value with exactly `scale` fraction digits, values in (-1, 0) included |
| NumberText.DecimalTextIsInjective | src/adbc_ffi.rs:1900-1921 | Distinct raw values of one scale print differently |
| NumberText.PrecisionCheckIsExact | src/arrow_conversion/builders.rs:154-192 | The significant-digit test refuses if and only if the number spelled by the digits is at least 10^precision, and text passes both tests if and only if its number fits and it has at most precision + 1 digits |
| NumberText.DecimalTextFits | src/arrow_conversion/builders.rs:154-192 | Text that shows a value of a DECIMAL(p, s) column with its s fraction digits is accepted if and only if the value is below 10^p: its leading zero is never counted against it |
| NumberText.LeadingZerosAreCounted | src/arrow_conversion/builders.rs:154-192 | Text with more fraction digits than the column's scale can be refused for its leading zeros alone: 0.001 at precision 2 |
| NumberText.DecodeHexIsExact | src/arrow_conversion/builders.rs:407-416 | Text decodes to given bytes without a plus sign in it if and only if it is one of their hex spellings, in either letter case |
| NumberText.DecodeInvertsEncode | src/arrow_conversion/builders.rs:407-416 | Decoding inverts hex encoding for every byte string, in upper and lower case |
| NumberText.PlusIsAccepted | src/arrow_conversion/builders.rs:407-416 | The radix parser takes a plus sign for a zero digit, so +f decodes although it spells no bytes |
| HexText.DecodeTextIsExact | src/arrow_conversion/builders.rs:407-416 | On text of any characters decoding gives bytes if and only if the pairs of its characters do |
| HexText.DecodePanicsIff | src/arrow_conversion/builders.rs:407-416 | Decoding stops the program if and only if the text has an even number of bytes and, after readable pairs alone, a cut falls inside a character: one of three or more bytes, or one of several bytes after one of one byte |
| HexText.DecodeStep | src/arrow_conversion/builders.rs:412-415 | What the first two bytes decide: a stop, an error, or a byte and the rest |
| NumberText.VersionIsRecovered | src/connection/version.rs:15-33 | A printed triple is recovered whatever suffix follows it, unless that begins with a digit, if and only if its numbers fit 32 bits; otherwise nothing is |
| NumberText.PatchDefaultsToZero | src/connection/version.rs:15-33 | Without a third part the patch number is 0 |
| NumberText.SessionCheckAgrees | src/connection/session.rs:119-122 | On a printed release the three-component check at patch 0 and the two-component check say the same, whatever the patch and suffix |
| NumberText.ParquetGate | src/connection/version.rs:53-55 | On a printed release the native Parquet gate is the order on the three numbers against 2025.1.11, suffix or not |
| SessionMachine.RunsAgree | src/adbc/connection.rs:344-366 | Over every sequence of operations with arbitrary refusals the limit last pushed is the ceiling of the session baseline, provided no refused push took effect |
| SessionMachine.RunsAgreeIff | src/adbc/connection.rs:344-366 | A run from a connect ends in agreement if and only if the limit last put in force on the server is the limit last acknowledged, whatever was refused in between |
| SessionMachine.ConnectAgrees | src/adbc/connection.rs:198-214 | A successful connect starts in that agreement, with the configured timeout pushed and recorded |
| SessionMachine.EveryQueryRunsUnderItsOwnLimit | src/adbc/connection.rs:326-366 | Whatever came before, the query of a statement, a commit or a rollback is served under the ceiling of its own timeout; when it has none, under limit 0 or before any push, when the server's own default governs |
| SessionMachine.ExecuteAnswers | src/adbc/connection.rs:69-79 | A refused query is reported as a timeout if and only if the statement ran under a limit and R0001 or the server's timeout text stands in the message; any other refusal is passed on with its message, and an answer is the server's row count or rows |
| SessionMachine.ExecuteSendsNothing | src/adbc/connection.rs:326-380 | Nothing is sent if and only if the session is closing or closed or the statement lacks a parameter; the error says which, and only a ready session counts the query |
| SessionMachine.PreparedAnswers | src/adbc/connection.rs:466-645 | A prepared call is sent if and only if its handle is open, the session takes queries and its parameters are there; it answers what the server does, and the update calls refuse a result set |
| SessionMachine.ConnectAnswers | src/adbc/connection.rs:164-270 | Connecting pushes the configured timeout as the least whole seconds that cover it, then opens the schema, and starts ready with no query counted; a refused timeout ends it there and a refused schema closes the session |
| SessionMachine.BeginAnswers | src/adbc/connection.rs:753-775 | A transaction is refused without a request exactly when the session is closing or closed or already in one; otherwise autocommit is switched off and the session marked just when the server agrees |
| SessionMachine.EndingAnswers | src/adbc/connection.rs:777-810 | Outside a transaction commit and rollback do nothing; in one they run their own word and succeed exactly when the server answers it with a row count, and then alone the transaction is over with nothing pending |
| SessionMachine.OneRequestAnswers | src/adbc/connection.rs:653-675 | Opening a schema, preparing, closing a prepared statement, the executor and shutting down each send exactly their one request, with the state checked only by the first two, and report its refusal |
| SessionMachine.StepAgreesIff | src/adbc/connection.rs:344-366 | From an agreement one operation keeps it if and only if no push that it made took effect although it was refused |
| SessionMachine.StaleBaseline | src/adbc/connection.rs:344-366 | Such a push leaves the baseline stale, from a fresh session on |
| SessionMachine.RunsAreRecorded | src/adbc/connection.rs:344-366 | In every run from a connect the limit in force is the last one a request put in force, and autocommit is on if and only if no request that turns it off took effect |
| SessionMachine.ReportedTimeoutCoversTheRequest | src/adbc/connection.rs:69-79 | A reported timeout is positive, at least what the statement asked for, and less than a second above it unless it saturates |
| SessionMachine.ZeroLimitMeansUnlimited | src/adbc/connection.rs:45-52 | A limit of 0 is pushed if and only if the statement has no timeout or one of 0 milliseconds |
| SessionMachine.InheritedLimitIsExact | src/adbc/connection.rs:298-304 | A statement inherits exactly the connection's limit if and only if the configured timeout has no part of a second shorter than a millisecond and its ceiling is at most one second above what 64-bit milliseconds hold |
| SessionMachine.InheritedLimitVanishesIff | src/adbc/connection.rs:39-52 | A configured timeout becomes unlimited in the statements that inherit it if and only if it is shorter than a millisecond |
| SessionMachine.ConfiguredTimeoutVanishesIff | src/adbc/connection.rs:298-376 | On a connection with a configured timeout, whatever ran before, a query that inherits it is served with limit 0 if and only if the timeout is shorter than a millisecond |
| SessionMachine.RunsStayConsistent | src/connection/session.rs:183-243 | Over every sequence of operations the transaction flag is set if and only if the state is InTransaction, and a set flag means autocommit is off on the server |
| SessionMachine.FailureChangesNoTransaction | src/adbc/connection.rs:753-805 | A failed begin, commit, rollback, statement or prepared call changes neither flag nor state, and only a begin that reached the server can have turned its autocommit off |
| SessionMachine.ClosedIsAbsorbing | src/connection/session.rs:231-259 | A closed session stays closed, and every operation that checks the state leaves client and server as they are |
| SessionMachine.NothingIsSentAfterShutdown | src/adbc/connection.rs:1096-1110 | After a shutdown, whatever its answer, no sequence of state-checking operations sends a request |
| SessionMachine.CommitClearsPendingWork | src/adbc/connection.rs:777-790 | A commit that reports success leaves nothing pending if and only if a transaction was open or nothing was pending |
| SessionMachine.SecondCommitDoesNothing | src/adbc/connection.rs:777-790 | After begin, work, commit and more work a second commit reports success and leaves that work uncommitted |
| SessionMachine.ExecutionStaysStaged | src/adbc/connection.rs:326-376 | Successful work leaves only work of an open transaction uncommitted if and only if autocommit is on, a transaction is open, or the text itself ends the transaction |
| SessionMachine.AutocommitNeverReturns | src/adbc/connection.rs:753-805 | No operation turns the server's autocommit on again |
| SessionMachine.FfiRunsAreConnectionRuns | src/adbc_ffi.rs:1330-1376 | Every sequence of what the C interface asks of its connection (the switch, commit, rollback, executions, prepare, bound executions, imports, the schema and closing) is a sequence of connection operations, so the results above hold of it |
| SessionMachine.ToggleReachesServerIff | src/adbc_ffi.rs:1330-1366 | A change of the switch is stored even when it fails; one that reports success opens or ends the transaction, and leaves the server's autocommit as the switch says if and only if it switches off or autocommit was on there already |
| SessionMachine.FfiRunsAreRecorded | src/adbc_ffi.rs:1330-1366 | In every run of the C interface from a connect the server's autocommit is on if and only if no request that turns it off took effect |
| SessionMachine.AutocommitIsWhatTheCallerDid | src/adbc_ffi.rs:1330-1366 | In every such run in which no refused autocommit request took effect, the server's autocommit is on if and only if no call switched it off with success |
| SessionMachine.SwitchIsHonouredIff | src/adbc_ffi.rs:1330-1366 | While the switch says on, successful work is committed at once if and only if no earlier call switched it off with success; a commit is refused either way |
| SessionMachine.TogglingLeavesWorkPending | src/adbc_ffi.rs:1330-1366 | From a fresh connection with every request answered well, switching off and on again leaves the next work uncommitted and a commit refused |
| SessionMachine.SwitchingBackOnLeavesWorkPending | src/adbc_ffi.rs:1330-1366 | Once autocommit was off on the server, in every later state in which the switch says on, successful work stays uncommitted and a commit is refused |
| SessionMachine.StepIsKept | src/adbc/connection.rs:326-380 | Every operation extends the log, keeps the transaction consistent and a closed session closed, and keeps the limits in agreement if and only if no refused push took effect; the methods of `AdbcConnection` promise this to their callers |
| AdbcConnection.Session.BeginTransaction | src/connection/session.rs:197-204 | Sets flag and state together, or refuses a closed session or an open transaction and changes nothing |
| AdbcConnection.Session.EndTransaction | src/connection/session.rs:207-228 | Clears the flag and returns to Ready, or changes nothing without a transaction |
| AdbcConnection.Session.Close | src/connection/session.rs:231-243 | Ends closed with the flag cleared, from any state |
| AdbcConnection.ConnectWithTransport | src/adbc/connection.rs:164-266 | Connecting makes the step of the machine: a refused push or schema is an error, a refused schema closes the session, and a connection that is returned is consistent and in agreement |
| AdbcConnection.Connection.ExecuteStatement | src/adbc/connection.rs:326-380 | The method makes exactly the machine's step: state check, counter, SQL, push when limits differ, query, baseline, error mapping |
| AdbcConnection.Connection.ExecuteStatementUpdate | src/adbc/connection.rs:398-404 | A result set where a row count is wanted is an error after the statement ran |
| AdbcConnection.Connection.BeginTransaction | src/adbc/connection.rs:753-775 | Refuses before any request, then turns autocommit off, then marks the session |
| AdbcConnection.Connection.Commit | src/adbc/connection.rs:777-790 | Does nothing without a transaction, else executes COMMIT and leaves the transaction only on success |
| AdbcConnection.Connection.Rollback | src/adbc/connection.rs:792-805 | Does nothing without a transaction, else executes ROLLBACK and leaves the transaction only on success |
| AdbcConnection.Connection.Shutdown | src/adbc/connection.rs:1096-1110 | Closes the session before the transport, whatever the transport answers |
| AdbcConnection.Connection.SetSchema | src/adbc/connection.rs:853-865 | Sends one request, and none from a closed session |
| AdbcConnection.Connection.Prepare | src/adbc/connection.rs:429-448 | Sends one request, and none from a closed session |
| AdbcConnection.Connection.SendPrepared | src/adbc/connection.rs:466-495 | The checks, counting and request that the four prepared calls have in common: handle and state before anything is sent |
| AdbcConnection.Connection.ExecutePrepared | src/adbc/connection.rs:466-495 | Checks handle and state before anything is sent, and counts as a query |
| AdbcConnection.Connection.ExecutePreparedUpdate | src/adbc/connection.rs:512-541 | Checks handle and state before anything is sent, refuses a result set, and is not counted |
| AdbcConnection.Connection.ExecuteBatch | src/adbc/connection.rs:609-639 | As for one row, over a batch of rows |
| AdbcConnection.Connection.ExecuteBatchUpdate | src/adbc/connection.rs:561-591 | As for one row, over a batch of rows |
| AdbcConnection.Connection.ClosePrepared | src/adbc/connection.rs:653-666 | Sends its request without looking at the session state |
| AdbcConnection.Connection.ExecutorRun | src/adbc/connection.rs:1127-1145 | Executes without looking at the session state or at any timeout; a result set counts as 0 rows |
| AdbcConnection.FfiConnection.ApplyAutoCommit | src/adbc_ffi.rs:1330-1341 | Stores the switch first, then begins or commits; repeating the value does nothing |
| AdbcConnection.FfiConnection.Commit | src/adbc_ffi.rs:1722-1736 | Refused while the switch is on, else a commit of the connection |
| AdbcConnection.FfiConnection.Rollback | src/adbc_ffi.rs:1738-1752 | Refused while the switch is on, else a rollback of the connection |
| StatementMachine.RunsKeepFit | src/adbc_ffi.rs:2417-2448 | In every reachable state a held prepared handle was created for the statement's current SQL |
| StatementMachine.StepKeepsFit | src/adbc_ffi.rs:2417-2448 | Every operation keeps the handle that of the current SQL; every method of `FfiStatement` promises it to its caller |
| StatementMachine.BoundRowsAreExact | src/adbc_ffi.rs:505-518 | Conversion succeeds with every cell converted in place, or names the first cell in row-major order that does not convert |
| StatementMachine.ExecutionsPartitionRows | src/adbc_ffi.rs:497-499 | The executions send every row once and in order, none empty: one row at a time exactly when the statement returns rows or the rows have no parameters, else all at once |
| StatementMachine.BoundExecutionIsExact | src/adbc_ffi.rs:2027-2081 | A bound execution sends exactly the converted rows in order, or a prefix of them when it fails, or no row at all when a cell does not convert; every request uses the handle created for the current SQL |
| StatementMachine.SendAllIsExact | src/adbc_ffi.rs:2036-2050 | Slices are sent in order up to the first failure |
| StatementMachine.SendAllTotals | src/adbc_ffi.rs:2068-2081 | The affected count is the sum of the executions' counts and the batches follow one another |
| StatementMachine.PlainExecutionAnswers | src/adbc_ffi.rs:2344-2371 | Without a target table and a bound batch the statement's own SQL is the one request, its refusal is passed on, and the answer is the server's count or batches |
| StatementMachine.BoundExecutionAnswers | src/adbc_ffi.rs:2027-2079 | A bound execution spends its batch; on success it answers the sum of its executions' counts, or their batches one after the other, and nothing for no rows |
| StatementMachine.IngestAnswers | src/adbc_ffi.rs:2344-2371 | With a target table an execution is an ingest whatever else the statement holds: nothing is prepared, and it answers the imported rows, or no batch when rows were asked for |
| StatementMachine.UsingTakesTheBatch | src/adbc_ffi.rs:2344-2371 | Whatever uses the bound batch is an execution that had one and leaves none |
| StatementMachine.BatchIsUsedAtMostOnce | src/adbc_ffi.rs:2344-2371 | Over every sequence of operations without a bind, starting without a batch, nothing that uses a batch is sent |
| StatementMachine.BulkIngestSends | src/adbc_ffi.rs:2111-2232 | An ingest sends, in order, a prefix of its mode's statements for the table its options name and the batch's columns, then the import of the whole batch, and all of it when it succeeds; a catalog other than EXA, a refused column type or a missing connection sends nothing; the batch is spent in every case |
| StatementMachine.IngestIsRead | src/adbc_ffi.rs:2123-2216 | As the server reads the statements: create and replace create the caller's table with its columns, create_append does so conditionally, replace alone drops that table first, append or no mode creates nothing |
| StatementMachine.IngestRefusalIsExact | src/adbc_ffi.rs:2111-2167 | The options are refused exactly for a missing table, a temporary table and an unknown mode, in this order |
| StatementMachine.CatalogIsExact | src/adbc_ffi.rs:189-198 | A catalog is accepted if and only if none is given or it is EXA in letters of either case |
| StatementMachine.BindStreamIsExact | src/adbc_ffi.rs:2318-2342 | Binding a stream binds every row of its batches at its place under their common columns, unbinds without batches, and leaves the statement alone on the stream's first error or different columns |
| FfiStatement.FfiStatement.SetSqlQuery | src/adbc_ffi.rs:2440-2448 | Keeps the prepared handle only when the text is the same |
| FfiStatement.FfiStatement.BindStream | src/adbc_ffi.rs:2318-2342 | Binds the one batch, the concatenation of several, or none of an empty stream; an error leaves the binding as it was |
| FfiStatement.FfiStatement.Prepare | src/adbc_ffi.rs:2417-2438 | Replaces the handle only when the server prepared the current SQL |
| FfiStatement.FfiStatement.ExecuteBoundBatch | src/adbc_ffi.rs:2027-2050 | The loop over executions makes the machine's step and joins the result batches |
| FfiStatement.FfiStatement.ExecuteBoundBatchUpdate | src/adbc_ffi.rs:2059-2081 | The loop over executions makes the machine's step and adds up the counts |
| FfiStatement.FfiStatement.ExecuteBulkIngest | src/adbc_ffi.rs:2111-2232 | Options are refused before the bound batch is taken, then the catalog, the column types and a missing connection; the DDL of the mode for the qualified table is executed in order before the import |
| FfiStatement.FfiStatement.Execute | src/adbc_ffi.rs:2344-2357 | Ingest first, then SQL required, then the bound batch taken, then plain SQL |
| FfiStatement.FfiStatement.ExecuteUpdate | src/adbc_ffi.rs:2359-2371 | Ingest first, then SQL required, then the bound batch taken, then plain SQL |
| PercentEncoding.FromUtf8IsExact | src/connection/params.rs:456-474 | Bytes decode to a text if and only if they are its UTF-8 encoding |
| PercentEncoding.DecodeInvertsEncode | src/connection/params.rs:456-474 | Percent decoding inverts percent encoding of every Unicode text |
| PercentEncoding.DecodeBytesIsExact | src/connection/params.rs:422-474 | Decoded bytes are the meaning of the text's elements, escapes of two hex digits in either letter case and bytes that stand for themselves, a percent sign before no escape included; nothing else is replaced |
| PercentEncoding.MalformedEscapes | src/connection/params.rs:456-474 | An escape that is not UTF-8 is refused and one that is cut off stays as it is |
| ConnectionUri.ParseQueryParams | src/connection/params.rs:422-452 | The loop skips empty parts, stops at the first malformed one, and lets a later key replace an earlier one |
| ConnectionUri.ParseWithCredentials | src/connection/params.rs:79-147 | The pieces are taken apart in the source's order, with its errors |
| ConnectionUri.ParsingInvertsPrinting | src/connection/params.rs:79-147 | A printed string means exactly the parts it was printed from: any user and password, a name or a bracketed literal, an optional port below 65536, a schema, any query pairs |
| ConnectionUri.FieldsComeBack | src/connection/params.rs:66-147 | For every iteration order of the hash map, a printed string connects as the first user that the caller, the userinfo or the query keys name, likewise for the password, with host, port and schema as printed and every setting as the query's keys say it; without a user it fails, and a key or value that nothing understands is the one named in the error |
| ConnectionUri.ListedKeysAreUnderstood | src/connection/params.rs:508-529 | The keys that the error lists are the ones that are understood, except the deprecated one |
| ConnectionUri.GivenCredentialsWin | src/connection/params.rs:66-78 | For every string that parses, credentials given outside it are used verbatim; host and user are never empty, the port is positive, and the connection timeout is at most 300 seconds |
| ConnectionUri.HostPortIsRead | src/connection/params.rs:477-506 | Host and port come back from their text, with 8563 when no port is written |
| ConnectionUri.SeparatorsAreExact | src/connection/params.rs:79-147 | For strings as they are written the first question mark begins the query, which is read before anything else and may hold any separator |
| ConnectionUri.WrittenMain | src/connection/params.rs:79-147 | Before the query the last at sign ends the credentials and the first slash after it begins the schema, an empty one being none |
| ConnectionUri.WrittenAuth | src/connection/params.rs:454-474 | The first colon of the credentials begins the password, which may hold further ones; each side is decoded on its own, and a failure is reported |
| ConnectionUri.PairIsExact | src/connection/params.rs:422-452 | A part of the query is split at its first equals sign and both sides are decoded; without one its position is reported |
| ConnectionUri.HostPortIsExact | src/connection/params.rs:477-506 | A bracketed host ends at its first closing bracket and has a port only after a colon; elsewhere the last colon begins the port; the default is 8563 |
| ConnectionUri.PortIsExact | src/connection/params.rs:477-506 | A port is read if and only if it is digits, maybe after a plus sign, of a number below 65536 |
| ConnectionUri.OuterSpaceIsIgnored | src/connection/params.rs:79-86 | White space around a string makes no difference |
| ConnectionUri.SchemeIsRequired | src/connection/params.rs:79-86 | A string without the scheme is refused, whatever else it holds |
| ConnectionBuilder.ApplyQueryParams | src/connection/params.rs:535-605 | The loop applies the pairs in the order given and stops at the first refused one |
| ConnectionBuilder.AppliedSettings | src/connection/params.rs:535-605 | Each setting holds the value of the last pair that names it, or what it held before; no other field changes |
| ConnectionBuilder.MeaningIsExact | src/connection/params.rs:535-630 | A pair gives a setting a value if and only if its key names the setting and its text says the value: the yes and no words and the transports in letters of either case, seconds as digits of a 64-bit number |
| ConnectionBuilder.BuildIsExact | src/connection/params.rs:320-386 | Building succeeds if and only if nothing is missing or out of bounds, and reports the first fault; what was given is kept, the defaults are port 8563, 30 seconds and an empty password, and encryption and the certificate check are off only on request |
| ConnectionBuilder.SuccessIsOrderIndependent | src/connection/params.rs:535-605 | Applying a map succeeds, in any order, if and only if every pair is valid on its own |
| ConnectionBuilder.OrderIndependenceIsExact | src/connection/params.rs:535-605 | The builder is the same for every iteration order if and only if keys of one setting agree on its value |
| SqlText.LexInvertsPrint | src/adbc_ffi.rs:124-184 | Text printed from a template is read as exactly the template's tokens, with every literal and identifier standing for the caller's text |
| SqlText.QualifiedNameIsRead | src/adbc_ffi.rs:134-146 | A qualified name is read as its one or two identifiers, split at the first dot when no schema is given |
| SqlText.SchemasQueryIsRead | src/adbc_ffi.rs:593-601 | The schema query has the fixed tokens and the pattern as one literal |
| SqlText.TablesQueryIsRead | src/adbc_ffi.rs:607-630 | The table query has the fixed tokens, each pattern as one literal, and each type as one literal |
| SqlText.ColumnsQueryIsRead | src/adbc_ffi.rs:633-652 | The column query has the fixed tokens and each pattern as one literal |
| SqlClauses.TableSchemaQueryIsRead | src/adbc_ffi.rs:658-671 | The names asked for are read as exactly these literals |
| SqlClauses.CreateTableIsRead | src/adbc_ffi.rs:152-184 | The DDL is read as a CREATE TABLE of exactly the caller's table and column names |
| CreateAppend.CreateAppendIsExact | src/adbc_ffi.rs:2194-2204 | The textual replacement of create_append makes the statement conditional and changes nothing else if and only if neither the schema, the table, a column name nor a type that the caller gave mentions CREATE TABLE |
| CreateAppend.CreateAppendIsRead | src/adbc_ffi.rs:2194-2204 | For every table and columns the replaced DDL is read as CREATE TABLE IF NOT EXISTS of the names after the replacement |
| CreateAppend.ReplacePrinted | src/adbc_ffi.rs:2194-2204 | Replacing in printed SQL is replacing in each of its pieces, doubled quotes included |
| CreateAppend.ColumnIsRenamed | src/adbc_ffi.rs:2194-2204 | A column named CREATE TABLE is created as a column named CREATE TABLE IF NOT EXISTS |
| SqlClauses.ReplaceDropsWhatItCreates | src/adbc_ffi.rs:2205-2216 | Replace mode drops exactly the table it then creates |
| SqlClauses.EndpointIsRead | src/query/clauses.rs:14-26 | URL, suffix and fingerprint are read as exactly themselves, the suffix inside the URL's quotes, and a fingerprint selects https |
| SqlClauses.FramingIsRead | src/query/clauses.rs:42-69 | Each framing option is read as its own clause with its own value |
| SqlClauses.NullClauseIsRead | src/query/clauses.rs:55-59 | The NULL clause holds exactly the given value, or is absent |
| ResultConversion.ConvertToRecordBatchOwned | src/arrow_conversion/converter.rs:136-172 | The draining loops build the columns of the rows that reach them |
| ResultConversion.ColumnsAgreeIff | src/arrow_conversion/converter.rs:108-169 | For at least one column the two conversions make the same columns if and only if no row has fewer values than there are columns |
| ResultConversion.ConversionsAgree | src/arrow_conversion/converter.rs:92-172 | On such rows, and whenever the first row has another width than the schema, both conversions give the same batch or the same error |
| ResultConversion.OwnedColumnsOfRaggedRows | src/arrow_conversion/converter.rs:153-169 | The owned columns have equal lengths if and only if no row has some values but fewer than the columns, and then equal the borrowed columns of the rows that are not empty |
| ResultConversion.ShortRowsFailOwned | src/arrow_conversion/converter.rs:153-172 | A short row makes the consuming conversion fail |
| ResultConversion.BuildTypedArray | src/arrow_conversion/builders.rs:57-97 | The typed loops append a null, a value, or stop at the first failure |
| ResultConversion.ColumnIsExact | src/arrow_conversion/builders.rs:45-97 | A built column has one cell per value, null exactly where the value is null; a failure is the first one and carries row, column, name, type and value |
| ResultConversion.ErrorIsFirst | src/arrow_conversion/converter.rs:195-215 | A value error of a batch is at the least failing column, and in it at the least failing row, with the value that stands there |
| ResultConversion.IntegersSkipThePrecisionCheck | src/arrow_conversion/builders.rs:216-248 | A JSON integer is never held against the precision, while the same number as text is refused from 10^precision on |
| ResultConversion.ConvertDenotes | src/arrow_conversion/builders.rs:216-404 | A value converts to a cell that shows it or, exactly when no cell of the type does, fails: a scaled integer's decimal text is the integer with zero fraction digits, a boolean its truth, text itself, binary the bytes its hex text spells; the failure is an overflow exactly for a decimal text or float that the column cannot hold |
| ResultConversion.ColumnDenotes | src/arrow_conversion/builders.rs:45-97 | Each cell of a built column shows the value of its row, and the value named in an error is refused |
| ResultConversion.ScaledIntegerIsWhole | src/arrow_conversion/builders.rs:216-248 | The decimal text of an integer times 10^scale is the integer and `scale` zeros behind the point |
| CsvReader.CsvToArrowReader.NextBatch | src/export/arrow.rs:274-319 | The reading loop makes the step of the reader: lines consumed, rows counted, end noticed, errors returned |
| CsvReader.CallsConserveRows | src/export/arrow.rs:274-319 | Until the first error the rows of the calls join to the rows of the lines consumed, each call has at most `batch_size` of them, and the row counter counts them |
| CsvReader.AnswersAreTheirRows | src/export/arrow.rs:274-350 | Each answer is the batch of the rows its call read, or nothing when it read none |
| CsvReader.AnswersNothingIff | src/export/arrow.rs:274-319 | A call answers nothing if and only if the reader has finished or the next `batch_size` lines are all blank |
| CsvReader.ErrorNamesAbsoluteRow | src/export/arrow.rs:322-350 | A conversion error names the row by its number in the whole input: the first failing row of the first failing column of the rows the call read |
| CsvReader.DrainingIsChunking | src/export/arrow.rs:732-799 | On lines without blank ones draining yields the batches of the chunked rows of the lines, and fails if and only if chunking fails |
| CsvAgreement.LinesConserveText | src/export/arrow.rs:274-290 | Cutting a text after every line feed, as the reader does, loses nothing: the lines join to the text and only the last may lack its line feed |
| CsvAgreement.ParsersAgreeIff | src/export/csv.rs:897-1027 | For every text, the line reader and the parser of the whole text read the same rows or both refuse, if and only if the text has an odd number of delimiters, or every line closes its quotes, is not blank, has no carriage return outside quotes and ends in one line break, which the last line may lack or have as a lone carriage return |
| CsvAgreement.ReaderAgreesWithExport | src/export/arrow.rs:274-319 | Where every line is such a single row, or the text has an odd number of delimiters and no blank line before the first line that is not closed, reading lines in batches and exporting the whole text yield the same batches or both fail, for every schema, batch size and conversion |
| CsvAgreement.ReaderDisagreesElsewhere | src/export/arrow.rs:274-319 | For every other text some batch size makes the two exports differ, with one nullable text column, so that condition is exact |
| CsvReader.ExportToRecordBatches | src/export/arrow.rs:758-796 | The loop over chunks builds every chunk or stops at the first failure |
| CsvText.ExportTextToRecordBatches | src/export/arrow.rs:732-799 | Exporting a text parses it, requires a schema, builds the chunks of its rows, and reports every failure as one of the CSV text |
| CsvText.CsvRows.Next | src/export/csv.rs:926-981 | The loop over characters yields the next row up to a line break outside quotes, nothing at the end of the text, or the row left open by an unclosed quote |
| CsvText.ParseCsv | src/export/csv.rs:896-902 | Collecting the rows stops at the first error |
| CsvAgreement.RowsOfLines | src/export/csv.rs:904-981 | Over lines that close their quotes the whole text has every row that the reader takes, and no more if and only if each line is a single row |
| CsvAgreement.RefusedIffOdd | src/export/csv.rs:962-976 | The parser of the whole text refuses it if and only if it has an odd number of delimiters |
| CsvAgreement.QuotedBreakIsOneRow | src/export/csv.rs:904-1027 | A line break in quotes stays in the field of the whole text, while its first line alone is not closed |
| CsvReader.BuildArrayFromStrings | src/export/arrow.rs:354-431 | The typed loops append a null, a value, or stop at the first failure with its absolute row |
| CsvReader.CellIsRead | src/export/arrow.rs:322-431 | In a built batch the cell of a row and column is null if and only if the field is empty, missing or the null marker and the column nullable; a text cell is the field's text, another cell its conversion |
| CsvReader.ValueIsExact | src/export/arrow.rs:382-524 | A null where none may be is empty text in a text column and an error in any other |
| CsvRow.ParseCsvRow | src/export/csv.rs:994-1027 | The loop with one character of look-ahead yields the fields and the open-quote flag of the recursive reading |
| CsvRow.ParsingInvertsPrinting | src/export/csv.rs:994-1027 | A row written with any mix of quoted and plain fields is read as exactly its fields |
| CsvRow.OpenIffOdd | src/export/csv.rs:990-1027 | A line is reported unclosed if and only if it holds an odd number of delimiters |
| GetObjects.TablesBySchemaFrom | src/adbc_ffi.rs:734-748 | Every schema has exactly its table rows in query order, and only schemas with rows are there |
| GetObjects.ColumnsByTableFrom | src/adbc_ffi.rs:754-778 | Every table has exactly its column rows in query order, with the row's position in its batch where the ordinal cannot be read |
| GetObjects.TablesAreRows | src/adbc_ffi.rs:734-748 | A table is listed under a schema if and only if some row of some batch has that schema, name and type |
| GetObjects.ColumnsAreRows | src/adbc_ffi.rs:754-778 | A column is listed under a table if and only if some row has its schema, table, name and type, with the row's ordinal, or its position in its batch counted from 1 where none can be read |
| GetObjects.SchemaNamesFrom | src/adbc_ffi.rs:720-731 | The names are the non-null ones in order |
| GetObjects.ObjectsBuilder.AppendTableEntry | src/adbc_ffi.rs:860-910 | Appending to the flat builders adds one table entry, with its own columns or a null list |
| GetObjects.ObjectsBuilder.AppendSchemaEntry | src/adbc_ffi.rs:913-946 | Appending to the flat builders adds one schema entry, with its own tables or a null list |
| GetObjects.ObjectsBuilder.BuildGetObjectsBatch | src/adbc_ffi.rs:952-989 | What is read back from the flat builders is the one nested answer |
| GetObjects.AnswerIsExact | src/adbc_ffi.rs:913-989 | A list is null if and only if the depth excludes it; each listed schema has its own tables and each table its own columns, in query order |
| GetObjects.AnswerConservesTables | src/adbc_ffi.rs:913-989 | For distinct schemas the answer holds every table row of the listed schemas exactly once |
| GetObjects.AnswerConservesColumns | src/adbc_ffi.rs:860-989 | Over distinct schemas and distinct table rows the answer holds every column row of the listed tables exactly once, under its own table |
| GetObjects.KeysAreTables | src/adbc_ffi.rs:913-989 | The listed tables are exactly the table rows of the listed schemas |

## Left out

- Transports, TLS, the HTTP tunnel, runtimes, blocking wrappers and file I/O: replaced by a server whose answers are parameters.
- Cancelled futures: a statement dropped between the push and the baseline update (src/adbc/connection.rs:357-368) is not modelled; every result is about calls that return.
- Concurrency between session methods: operations that change state take the connection exclusively.
- SessionMachine.RunsAgree: excludes refused timeout pushes that took effect; `SessionMachine.RunsAgreeIff` covers them.
- SessionMachine.AutocommitIsWhatTheCallerDid: excludes refused autocommit requests that took effect; `SessionMachine.FfiRunsAreRecorded` covers them.
- Placeholder substitution (src/query/statement.rs): a statement carries its final SQL text, or none when a parameter is missing.
- Prepared parameters: a prepared statement carries its encoded parameters, or none when they cannot be encoded.
- The schema that a server opens and the current-schema bookkeeping of the transport.
- Percentages, floors, sorting of the summary and normalisation of paths in the coverage script: float and library behaviour.
- The coverage script's module directory of a file is a parameter, since it is path arithmetic of a library; a report is its list of lines, as `splitlines` gives them.
- Lcov.IntIsExact: Python's `int` is modelled on ASCII digits, and without its limit of 4300 digits.
- Regular expressions appear as recognisers of the few patterns used.
- NumberText.DecimalTextIsExact: negative scales are excluded; the driver prints their raw value.
- NumberText.DecodeHexIsExact: is about pairs of characters; `HexText` has the driver's cuts at byte offsets.
- Parsing of dates, timestamps, intervals, floats and decimal text (src/types/conversion.rs) and the type mapping (src/types/mapping.rs): parameters of the model.
- ResultConversion.IntegersSkipThePrecisionCheck: integers are unbounded here, so a scaled JSON integer beyond 128 bits does not overflow as in the driver.
- ResultConversion.ConvertDenotes: says nothing about the decimal text of integers at scales above 38, which Arrow does not have.
- ConnectionUri.FieldsComeBack: excludes keys that give one setting different values; `ConnectionBuilder.OrderIndependenceIsExact` covers them.
- ResultConversion.OwnedColumnsOfRaggedRows: schemas have at least one column.
- CsvReader.DrainingIsChunking: batches have a positive size.
- CsvAgreement.ParsersAgreeIff: the separator and the delimiter are not line breaks.
- Downcast failures of Arrow arrays and builders: the model's columns are typed.
- Constraints of tables in GetObjects: always a null list.
- Redaction of keys and passwords in error texts, and the wording of errors.
- ConnectionBuilder.ApplyQueryParams: an unknown key is always named, also where the driver redacts it.
- Lower-casing of boolean and transport values follows the characters that can spell the accepted words.
- SqlText.LexInvertsPrint: the lexer does not know comments, which no template contains outside quotes.
- SqlClauses.CreateTableIsRead: the type names that the type mapper spells contain no quotes.
- CreateAppend.CreateAppendIsRead: likewise.
- StatementMachine.BulkIngestSends: assumes that a call which reports success was sent.
- The typed loops of result columns and of CSV columns, eight and seven copies of one loop, are one method each with the type as a parameter.
- The C export and the option getters and setters: thin wrappers.
