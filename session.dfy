/**
  The parse-session state of the C99 parser driver: the typedef table that
  the tokenizer consults to tell type names from identifiers (the "lexer
  hack"), the diagnostic counter, the current position and file name, and the
  load-a-file lifecycle that resets them, runs the grammar engine and decides
  the verdict.

  The driver keeps all of this in process-wide globals. The model gives it
  twice: as a value (`State`) with one pure step per callback, so that whole
  parses can be reasoned about, and as the class `Session`, whose fields are
  the globals and whose methods update them in place and are proved to take
  exactly the pure steps.

  The grammar engine `yyparse` is opaque. One run of it is modelled as an
  arbitrary trace of the callbacks it can make, followed by its return code.
 */
module ParseSession {
  import opened Diagnostics

  /** `EXIT_FAILURE`: some int fixed by the C library; nothing here depends on its value. */
  const ExitFailure: int

  /** The line `puts("ERROR")` writes when a parse fails. */
  const FailureMarker: string := "ERROR\n"

  /** The driver's globals, plus `log`: what has been written to standard output. */
  datatype State = State(
    types: set<string>,
    lineno: int,
    column: int,
    fileName: string,
    errorCount: nat,
    log: seq<string>)

  /** Globals at process start: static storage is zero-initialised. */
  const Initial: State := State({}, 0, 0, "", 0, [])

  /** One thing the grammar engine (with its tokenizer) can do to the session. */
  datatype Callback =
    | Query(name: string)               // is_typedefed(name)
    | Register(name: string)            // add_typedef(name)
    | Diagnose(message: string)         // yyerror(format, ...) with its message already rendered
    | Move(line: int, col: int)         // the tokenizer's own writes to lineno and column

  /** What `is_typedefed(name)` returns in state s: 1 when the name is in the table, else 0. */
  function Answer(s: State, name: string): (r: int)
    ensures r == 0 || r == 1
    ensures r == 1 <==> name in s.types
  {
    if name in s.types then 1 else 0
  }

  /** The effect of one callback on the session. */
  function Step(s: State, c: Callback): State {
    match c
    case Query(_) => s
    case Register(name) => s.(types := s.types + {name})
    case Diagnose(message) =>
      s.(errorCount := s.errorCount + 1,
         log := s.log + [Format(s.fileName, s.lineno, s.column, message)])
    case Move(line, col) => s.(lineno := line, column := col)
  }

  /** The session after the engine has made the callbacks cs, in order. */
  function Run(s: State, cs: seq<Callback>): State
    decreases |cs|
  {
    if cs == [] then s else Step(Run(s, cs[..|cs| - 1]), cs[|cs| - 1])
  }

  /** The names registered somewhere in cs. */
  function Registered(cs: seq<Callback>): set<string> {
    set c | c in cs && c.Register? :: c.name
  }

  /** How many diagnostics cs reports. */
  function ReportCount(cs: seq<Callback>): nat
    decreases |cs|
  {
    if cs == [] then 0
    else ReportCount(cs[..|cs| - 1]) + (if cs[|cs| - 1].Diagnose? then 1 else 0)
  }

  /** The messages cs reports, in order. */
  function Messages(cs: seq<Callback>): (r: seq<string>)
    ensures |r| == ReportCount(cs)
    decreases |cs|
  {
    if cs == [] then []
    else
      var last := cs[|cs| - 1];
      Messages(cs[..|cs| - 1]) + (if last.Diagnose? then [last.message] else [])
  }

  /** The part of `do_load_file` after a successful open, before `yyparse`. */
  function Reset(s: State, file: string): State {
    s.(lineno := 1, column := 1, fileName := file, errorCount := 0)
  }

  /** A verdict: the session afterwards and the value `do_load_file` returns. */
  datatype Loaded = Loaded(state: State, status: int)

  /** The part of `do_load_file` after `yyparse` has returned ret. */
  function Verdict(s: State, ret: int): Loaded {
    if ret != 0 || s.errorCount != 0 then Loaded(s.(log := s.log + [FailureMarker]), 1)
    else Loaded(s, ret)
  }

  /**
    `do_load_file` as a whole: `canOpen` says whether the file could be opened,
    cs and ret are what the grammar engine did and returned.
   */
  function LoadFile(s: State, canOpen: bool, file: string, cs: seq<Callback>, ret: int): Loaded {
    if !canOpen then Loaded(s, ExitFailure) else Verdict(Run(Reset(s, file), cs), ret)
  }

  // ---------------------------------------------------------------------
  // Properties of a run of the grammar engine

  lemma {:induction false} RunAppend(s: State, cs: seq<Callback>, ds: seq<Callback>)
    ensures Run(s, cs + ds) == Run(Run(s, cs), ds)
    decreases |ds|
  {
    if ds == [] {
      assert cs + ds == cs;
    } else {
      assert (cs + ds)[..|cs + ds| - 1] == cs + ds[..|ds| - 1];
      RunAppend(s, cs, ds[..|ds| - 1]);
    }
  }

  /** The table after a run holds exactly the names it held before and the names registered. */
  lemma {:induction false} RunTypes(s: State, cs: seq<Callback>)
    ensures Run(s, cs).types == s.types + Registered(cs)
    decreases |cs|
  {
    if cs != [] {
      var init := cs[..|cs| - 1];
      RunTypes(s, init);
      assert cs == init + [cs[|cs| - 1]];
      assert Registered(cs) == Registered(init) + Registered([cs[|cs| - 1]]);
    }
  }

  /**
    Each report adds one to the error count and one line to the output, the
    diagnostic for the session's file carrying that report's message; nothing
    else writes.
   */
  lemma {:induction false} RunReports(s: State, cs: seq<Callback>)
    ensures Run(s, cs).errorCount == s.errorCount + ReportCount(cs)
    ensures |Run(s, cs).log| == |s.log| + ReportCount(cs)
    ensures Run(s, cs).log[..|s.log|] == s.log
    ensures Run(s, cs).fileName == s.fileName
    ensures forall j :: |s.log| <= j < |Run(s, cs).log| ==>
      ReportsMessage(s.fileName, Run(s, cs).log[j], Messages(cs)[j - |s.log|])
    decreases |cs|
  {
    if cs != [] {
      var init := cs[..|cs| - 1];
      RunReports(s, init);
      var r := Run(s, init);
      var last := cs[|cs| - 1];
      if last.Diagnose? {
        FormatReportsMessage(r.fileName, r.lineno, r.column, last.message);
        assert Messages(cs) == Messages(init) + [last.message];
      }
    }
  }

  /** When the tokenizer does not move, the position stays where the run found it. */
  lemma {:induction false} RunKeepsPosition(s: State, cs: seq<Callback>)
    requires forall i :: 0 <= i < |cs| ==> !cs[i].Move?
    ensures Run(s, cs).lineno == s.lineno && Run(s, cs).column == s.column
    decreases |cs|
  {
    if cs != [] {
      RunKeepsPosition(s, cs[..|cs| - 1]);
    }
  }

  /**
    `is_typedefed(n)` answers 1 during a run exactly when n was in the table
    when the run began or was registered by an earlier callback of the run.
   */
  lemma QueryAnswer(s: State, cs: seq<Callback>, i: nat)
    requires i < |cs| && cs[i].Query?
    ensures Answer(Run(s, cs[..i]), cs[i].name) == 1
        <==> cs[i].name in s.types || Register(cs[i].name) in cs[..i]
  {
    RunTypes(s, cs[..i]);
  }

  /** Nothing removes a name: whatever follows a registration, the name stays a type name. */
  lemma TypesPersist(s: State, cs: seq<Callback>, ds: seq<Callback>)
    ensures Run(s, cs).types <= Run(s, cs + ds).types
  {
    RunAppend(s, cs, ds);
    RunTypes(Run(s, cs), ds);
  }

  /** Registering a name twice in a row leaves the session as registering it once. */
  lemma RegisterIdempotent(s: State, cs: seq<Callback>, name: string, ds: seq<Callback>)
    ensures Run(s, cs + [Register(name), Register(name)] + ds) == Run(s, cs + [Register(name)] + ds)
  {
    RunAppend(s, cs + [Register(name), Register(name)], ds);
    RunAppend(s, cs + [Register(name)], ds);
    RunAppend(s, cs, [Register(name), Register(name)]);
    RunAppend(s, cs, [Register(name)]);
    assert [Register(name), Register(name)][..1] == [Register(name)];
  }

  /**
    Two sessions that agree on position, file name and error count stay in
    agreement under the same callbacks and write the same new lines, whatever
    their typedef tables and earlier output.
   */
  lemma {:induction false} RunIndependent(s1: State, s2: State, cs: seq<Callback>)
    requires s1.lineno == s2.lineno && s1.column == s2.column
    requires s1.fileName == s2.fileName && s1.errorCount == s2.errorCount
    ensures Run(s1, cs).lineno == Run(s2, cs).lineno && Run(s1, cs).column == Run(s2, cs).column
    ensures Run(s1, cs).errorCount == Run(s2, cs).errorCount
    ensures |s1.log| <= |Run(s1, cs).log| && |s2.log| <= |Run(s2, cs).log|
    ensures Run(s1, cs).log[|s1.log|..] == Run(s2, cs).log[|s2.log|..]
    decreases |cs|
  {
    RunReports(s1, cs);
    RunReports(s2, cs);
    if cs != [] {
      var init := cs[..|cs| - 1];
      RunIndependent(s1, s2, init);
      RunReports(s1, init);
      RunReports(s2, init);
      var r1, r2 := Run(s1, init), Run(s2, init);
      if cs[|cs| - 1].Diagnose? {
        var line := Format(r1.fileName, r1.lineno, r1.column, cs[|cs| - 1].message);
        assert Run(s1, cs).log[|s1.log|..] == r1.log[|s1.log|..] + [line];
        assert Run(s2, cs).log[|s2.log|..] == r2.log[|s2.log|..] + [line];
      }
    }
  }

  // ---------------------------------------------------------------------
  // Properties of do_load_file

  /** An open that fails returns EXIT_FAILURE and leaves every global and the output as they were. */
  lemma LoadFileUnopened(s: State, file: string, cs: seq<Callback>, ret: int)
    ensures LoadFile(s, false, file, cs, ret) == Loaded(s, ExitFailure)
  {
  }

  /**
    After a successful open: the error count counts exactly the run's
    reports, the file name is the loaded file, the table keeps every earlier
    name and gains the registered ones, the output gains one line per report
    and then "ERROR" exactly on failure, and the status is 1 on failure and 0
    on success, failure meaning a non-zero engine return or any report.
   */
  lemma LoadFileVerdict(s: State, file: string, cs: seq<Callback>, ret: int)
    ensures var r := LoadFile(s, true, file, cs, ret);
      var failed := ret != 0 || ReportCount(cs) != 0;
      && r.state.errorCount == ReportCount(cs)
      && r.state.fileName == file
      && r.state.types == s.types + Registered(cs)
      && r.status == (if failed then 1 else 0)
      && |r.state.log| == |s.log| + ReportCount(cs) + (if failed then 1 else 0)
      && r.state.log[..|s.log|] == s.log
      && (forall j :: |s.log| <= j < |s.log| + ReportCount(cs) ==>
            ReportsMessage(file, r.state.log[j], Messages(cs)[j - |s.log|]))
      && (failed ==> r.state.log[|r.state.log| - 1] == FailureMarker)
  {
    RunReports(Reset(s, file), cs);
    RunTypes(Reset(s, file), cs);
  }

  /**
    The verdict and everything written do not depend on what an earlier load
    left behind in the error count, position, file name or output, given the
    same engine behaviour. The typedef table is the exception: it is not
    cleared, so the engine may behave differently on a second load.
   */
  lemma LoadFileIndependent(s1: State, s2: State, file: string, cs: seq<Callback>, ret: int)
    ensures var r1, r2 := LoadFile(s1, true, file, cs, ret), LoadFile(s2, true, file, cs, ret);
      && r1.status == r2.status
      && r1.state.errorCount == r2.state.errorCount
      && |s1.log| <= |r1.state.log| && |s2.log| <= |r2.state.log|
      && r1.state.log[|s1.log|..] == r2.state.log[|s2.log|..]
  {
    var t1, t2 := Reset(s1, file), Reset(s2, file);
    RunIndependent(t1, t2, cs);
    RunReports(t1, cs);
    RunReports(t2, cs);
  }

  /**
    Names registered by an earlier load are still type names in the next one:
    a corollary of LoadFileVerdict, stated on its own because the table is
    the one part of the session a reload does not reset.
   */
  lemma TypedefsSurviveReload(s: State, file: string, cs: seq<Callback>, ret: int)
    ensures s.types <= LoadFile(s, true, file, cs, ret).state.types
  {
    LoadFileVerdict(s, file, cs, ret);
  }

  /** A clean file: the engine returns 0 and nothing is reported, so the status is 0. */
  lemma CleanFileSucceeds(s: State, file: string, cs: seq<Callback>)
    requires forall i :: 0 <= i < |cs| ==> !cs[i].Diagnose?
    ensures LoadFile(s, true, file, cs, 0).status == 0
    ensures LoadFile(s, true, file, cs, 0).state.log == s.log
  {
    NoReports(cs);
    LoadFileVerdict(s, file, cs, 0);
    assert LoadFile(s, true, file, cs, 0).state.log[..|s.log|] == s.log;
  }

  lemma {:induction false} NoReports(cs: seq<Callback>)
    requires forall i :: 0 <= i < |cs| ==> !cs[i].Diagnose?
    ensures ReportCount(cs) == 0
    decreases |cs|
  {
    if cs != [] {
      NoReports(cs[..|cs| - 1]);
    }
  }

  /**
    One diagnostic that the engine recovers from: the engine returns 0, but
    the load still fails, after one line at position 1:1 and the marker.
   */
  lemma RecoveredErrorFails(s: State, file: string, message: string)
    ensures LoadFile(s, true, file, [Diagnose(message)], 0)
         == Loaded(Reset(s, file).(errorCount := 1,
                     log := s.log + [Format(file, 1, 1, message), FailureMarker]), 1)
  {
    var t := Reset(s, file);
    assert [Diagnose(message)][..0] == [];
    assert Run(t, [Diagnose(message)]) == t.(errorCount := 1, log := s.log + [Format(file, 1, 1, message)]);
    assert s.log + [Format(file, 1, 1, message)] + [FailureMarker]
        == s.log + [Format(file, 1, 1, message), FailureMarker];
  }

  /** `typedef int Foo; Foo * x;`: once Foo is registered, the next query for it answers 1. */
  lemma TypedefThenUse(s: State, file: string)
    ensures Answer(Run(Reset(s, file), [Register("Foo")]), "Foo") == 1
  {
    assert [Register("Foo")][..0] == [];
  }

  // ---------------------------------------------------------------------
  // The globals, updated in place

  class Session {
    var types: set<string>
    var lineno: int
    var column: int
    var fileName: string
    var errorCount: nat
    var log: seq<string>

    /** The globals as a value of the pure model. */
    ghost function Snapshot(): State
      reads this
    {
      State(types, lineno, column, fileName, errorCount, log)
    }

    /** The globals at process start. */
    constructor ()
      ensures Snapshot() == Initial
    {
      types, lineno, column, fileName, errorCount, log := {}, 0, 0, "", 0, [];
    }

    /** `is_typedefed`: 1 exactly when name is in the table; changes nothing. */
    method IsTypedefed(name: string) returns (r: int)
      ensures r == 0 || r == 1
      ensures r == 1 <==> name in types
      ensures r == Answer(Snapshot(), name)
    {
      r := if name in types then 1 else 0;
    }

    /** `add_typedef`: the table gains name; nothing else changes. */
    method AddTypedef(name: string)
      modifies this
      ensures types == old(types) + {name}
      ensures Snapshot() == Step(old(Snapshot()), Register(name))
    {
      types := types + {name};
    }

    /**
      `yyerror`: one more error and one more output line, the diagnostic at
      the current file and position; table and position unchanged.
     */
    method Report(message: string)
      modifies this
      ensures errorCount == old(errorCount) + 1
      ensures log == old(log) + [Format(fileName, lineno, column, message)]
      ensures Snapshot() == Step(old(Snapshot()), Diagnose(message))
    {
      errorCount := errorCount + 1;
      log := log + [Format(fileName, lineno, column, message)];
    }

    /** The tokenizer's write of the current position. */
    method Reposition(line: int, col: int)
      modifies this
      ensures lineno == line && column == col
      ensures Snapshot() == Step(old(Snapshot()), Move(line, col))
    {
      lineno, column := line, col;
    }

    /**
      The start of `do_load_file`. When the file cannot be opened, the result
      is `EXIT_FAILURE` and nothing changes; otherwise the result is None,
      position, file name and error count are reset and the table is kept.
     */
    method Start(canOpen: bool, file: string) returns (early: Option<int>)
      modifies this
      ensures early == if canOpen then None else Some(ExitFailure)
      ensures !canOpen ==> Snapshot() == old(Snapshot())
      ensures canOpen ==> Snapshot() == Reset(old(Snapshot()), file)
      ensures types == old(types)  // a corollary of the two above, spelled out: the table is kept
    {
      if !canOpen {
        return Some(ExitFailure);
      }
      lineno := 1;
      column := 1;
      fileName := file;
      errorCount := 0;
      early := None;
    }

    /**
      The end of `do_load_file`: with engine return code ret, the result is 1
      and "ERROR" is written when ret is non-zero or an error was reported;
      otherwise the result is ret, that is 0.
     */
    method Finish(ret: int) returns (status: int)
      modifies this
      ensures status == (if ret != 0 || old(errorCount) != 0 then 1 else 0)
      ensures log == old(log) + (if status == 1 then [FailureMarker] else [])
      ensures Loaded(Snapshot(), status) == Verdict(old(Snapshot()), ret)
    {
      if ret != 0 || errorCount != 0 {
        log := log + [FailureMarker];
        return 1;
      }
      status := ret;
    }
  }
}
