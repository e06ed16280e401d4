# c99parser driver: parse-session model

A Dafny model of the driver `main.cpp` of the c99parser project, the part a
yacc-generated C99 grammar calls back into. It covers:

- the **typedef table** (`s_types`), which the tokenizer asks whether an
  identifier is a type name (`is_typedefed`) and which the grammar extends
  when it reduces a `typedef` declaration (`add_typedef`) — the "lexer hack";
- the **diagnostic counter** (`yyerror`): one output line
  `<file>:<line>:<column>: error: <message>` and one more in `error_count`;
- the **load lifecycle** (`do_load_file`): give up with `EXIT_FAILURE` when
  the file cannot be opened, otherwise reset position, file name and error
  count, run the grammar engine, and report failure (`ERROR`, status 1) when
  the engine returned non-zero or any error was reported.

Two modules:

- `Diagnostics` (`diagnostics.dfy`): the text of a diagnostic line, a reader
  for such lines, and the proof that every line read back gives the position
  and message it was written with.
- `ParseSession` (`session.dfy`): the globals as a value `State`, one pure
  `Step` per callback the engine can make, `Run` over a trace of callbacks,
  `LoadFile` for `do_load_file` as a whole, the lemmas about them, and the
  class `Session` whose fields are the globals and whose methods update them
  in place, each proved to take exactly the corresponding pure step.

The grammar engine `yyparse` is generated code that is not part of this
model. One run of it is an arbitrary sequence of `Callback`s (typedef
queries, registrations, diagnostics, and the tokenizer's writes to the
position globals, `Move`) followed by an arbitrary return code.

Points where the model follows the code as written:

- A reload does **not** clear the typedef table: `do_load_file` resets only
  `lineno`, `column`, `s_file` and `error_count` (main.cpp:53-56). The model
  keeps the table and proves that names survive a reload
  (`TypedefsSurviveReload`); sessions are independent only in everything but
  the table (`LoadFileIndependent`).
- The open-failure status is `EXIT_FAILURE`, which the code does not
  guarantee to differ from the syntax-failure status 1; the model keeps it as
  an unspecified constant `ExitFailure`.
- Line and column are `int`s printed with `%u`. Assuming a 32-bit,
  two's-complement `int` (true of the usual ABIs, not promised by C), a
  diagnostic shows them as their unsigned 32-bit value (`Unsigned32`).

## Model

| member | source | states |
|---|---|---|
| `Diagnostics.Unsigned32` | main.cpp:23 | the value `%u` prints for an `int`: below 2^32, congruent to it modulo 2^32, the value itself when already in range, plus 2^32 when negative |
| `Diagnostics.Decimal` | main.cpp:23 | a number rendered by `printf` is a non-empty run of decimal digits with no leading zero |
| `Diagnostics.DecimalRoundTrip` | main.cpp:23 | reading back the decimal rendering of n gives n |
| `Diagnostics.FormatParseRoundTrip` | main.cpp:19-28 | the line `yyerror` writes for a file, line, column and message reads back (knowing the file name) as exactly that position, taken as unsigned 32-bit, and that message |
| `Diagnostics.Format` | main.cpp:23-25 | the diagnostic line of `yyerror`; what it means is stated by `FormatParseRoundTrip`, `FormatReportsMessage` and `FormatIsOneLine` |
| `Diagnostics.FormatReportsMessage` | main.cpp:23-25 | every diagnostic line, at whatever position, reads back for its file as carrying its own message |
| `Diagnostics.FormatIsOneLine` | main.cpp:23-25 | when file name and message hold no newline, a diagnostic is exactly one output line, ending in its only newline |
| `ParseSession.Step` | main.cpp:19-38 | the effect of one callback (`is_typedefed`, `add_typedef`, `yyerror`, a tokenizer move); stated over whole runs by `RunTypes`, `RunReports`, `RunKeepsPosition` and `QueryAnswer` |
| `ParseSession.Reset` | main.cpp:53-56 | the reset after a successful open; its effect on a load is stated by `LoadFileVerdict`, `LoadFileIndependent` and `TypedefsSurviveReload` |
| `ParseSession.Verdict` | main.cpp:62-68 | the failure decision after `yyparse`; stated by `LoadFileVerdict`, `CleanFileSucceeds` and `RecoveredErrorFails` |
| `ParseSession.LoadFile` | main.cpp:41-69 | `do_load_file` as a whole; stated by `LoadFileUnopened`, `LoadFileVerdict` and `LoadFileIndependent` |
| `ParseSession.Answer` | main.cpp:30-33 | `is_typedefed` returns 0 or 1, and 1 exactly when the name is in the table |
| `ParseSession.RunTypes` | main.cpp:35-38 | after any run of the engine the table is exactly the earlier table plus the registered names, whatever their order or repetition |
| `ParseSession.RunReports` | main.cpp:19-28 | after any run the error count grows by exactly the number of reports and the output by one line per report, the earlier output kept; the k-th new line is a diagnostic for the session's file carrying the k-th reported message; the file name is unchanged |
| `ParseSession.RunKeepsPosition` | main.cpp:19-38 | typedef queries, registrations and reports never move the position; only the tokenizer does |
| `ParseSession.QueryAnswer` | main.cpp:30-38 | a query during a run answers 1 if and only if the name was in the table at the start or was registered earlier in the run |
| `ParseSession.TypesPersist` | main.cpp:35-38 | nothing removes a name: the table after a run is contained in the table after any longer run |
| `ParseSession.RegisterIdempotent` | main.cpp:37 | registering a name twice in a row leaves the whole session as registering it once |
| `ParseSession.RunIndependent` | main.cpp:19-38 | two sessions agreeing on position, file name and error count keep agreeing, and write the same lines, under the same callbacks whatever their tables |
| `ParseSession.LoadFileUnopened` | main.cpp:46-51 | when the open fails the result is `EXIT_FAILURE` and table, counters, file name and output are all unchanged |
| `ParseSession.LoadFileVerdict` | main.cpp:41-69 | after a successful open the error count is the number of reports, the file name is the loaded file, the table keeps every earlier name plus the registered ones, the output gains one line per report, the k-th a diagnostic for the loaded file carrying the k-th reported message, and then `ERROR` exactly on failure, and the status is 1 if the engine returned non-zero or anything was reported, else 0 |
| `ParseSession.LoadFileIndependent` | main.cpp:53-68 | status, error count and written lines of a load do not depend on what an earlier load left in counters, position, file name or output |
| `ParseSession.TypedefsSurviveReload` | main.cpp:53-56 | a load keeps every typedef name of earlier loads (a corollary of `LoadFileVerdict`) |
| `ParseSession.CleanFileSucceeds` | main.cpp:62-68 | an engine that returns 0 and reports nothing gives status 0 and writes nothing |
| `ParseSession.RecoveredErrorFails` | main.cpp:62-66 | one report that the engine recovers from (return 0) still fails the load: one diagnostic at 1:1, then `ERROR`, status 1 |
| `ParseSession.TypedefThenUse` | main.cpp:30-38 | after `typedef int Foo;` registers Foo, the query for Foo answers 1 |
| `ParseSession.Session.constructor` | main.cpp:10-13 | the globals start empty and zero |
| `ParseSession.Session.IsTypedefed` | main.cpp:30-33 | returns 0 or 1, 1 exactly when the name is in the table, and changes nothing |
| `ParseSession.Session.AddTypedef` | main.cpp:35-38 | the table gains the name and nothing else changes |
| `ParseSession.Session.Report` | main.cpp:19-28 | the error count grows by one and the output by the diagnostic line at the current file and position; table and position unchanged |
| `ParseSession.Session.Reposition` | main.cpp:12 | the tokenizer's write of `lineno` and `column` sets them and nothing else |
| `ParseSession.Session.Start` | main.cpp:46-56 | on a failed open returns `EXIT_FAILURE` and changes nothing; otherwise sets position 1:1, the file name and a zero error count, keeping the table |
| `ParseSession.Session.Finish` | main.cpp:62-68 | returns 1 and writes `ERROR` when the engine returned non-zero or an error was reported, else returns the engine's 0 and writes nothing |

## Left out

- Opening and closing the file and the `Cannot open` message on standard error (main.cpp:46-50, 60): the open's outcome is a boolean input, and only standard output is recorded, as the `log` of lines.
- `yyparse` and the grammar in `c99.tab.h`: c99.tab.h is not part of this model; the engine is an arbitrary callback trace plus a return code.
- The tokenizer's advancement of `lineno` and `column`: it is not part of this model; its writes are the arbitrary `Move` callback and the `Session.Reposition` method.
- The `printf` rendering of the `yyerror` format and arguments: the message is taken already rendered; the `%s`/`%u` prefix and the final newline are modelled.
- The value of `EXIT_FAILURE`: left unspecified, as the C standard leaves it.
- `error_count` overflow: the count is unbounded, so the behaviour after 2^31 - 1 reports is not modelled.
- `main` passing `argv[1]` without checking `argc` (main.cpp:71-74): command-line plumbing.
