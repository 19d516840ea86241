/** The pass driver of the compiler: executePass() walks the top-level
    statements in tree order, resets every registered optimisation pass before
    each statement, and either applies every pass in turn (optimisation phase)
    or lets the statement process itself once (plain phase). The dead-code
    signal is a result value here: it stops the rest of that statement's work,
    leaves a log message on the statement, and the walk carries on. Any other
    failure ends the pass. */
module Compiler {
  import opened Common

  /** A compilation phase; which phases are optimisation phases is decided by
      a classification the driver is given. */
  datatype Pass = Pass(code: nat)

  /** What one call of a statement's process() does: it finishes, raises the
      dead-code signal at a source line, or fails in any other way. */
  datatype Outcome = Completed | DeadCode(line: nat) | Fatal(message: string)

  /** The calls the driver makes into code outside it, in order: a pass's
      reset(), a statement's process() with the optimisation pass that was
      current, a message logged on a statement, and an optimisation pass's own
      processStatementInternal() applied to a statement. */
  datatype Event =
    | Reset(pass: nat)
    | Process(statement: nat, optimization: Option<nat>)
    | Logged(statement: nat, message: string)
    | Applied(statement: nat, pass: nat)

  /** A stretch of work: its events, the optimisation pass current at its
      end, and how it ended. */
  datatype Run = Run(events: seq<Event>, optimization: Option<nat>, outcome: Outcome)

  /** The message logged on a statement that was removed as dead code. */
  function DeadCodeMessage(line: nat): (m: string)
    ensures |m| > |"Skipping removed expression at Line "|
    ensures m[..|"Skipping removed expression at Line "|] == "Skipping removed expression at Line "
    ensures m[|"Skipping removed expression at Line "|..] == NatToString(line)
  {
    "Skipping removed expression at Line " + NatToString(line)
  }

  /** reset() on every registered pass, in list order. */
  function ResetEvents(passes: seq<nat>): (r: seq<Event>)
    ensures |r| == |passes|
    ensures forall k :: 0 <= k < |passes| ==> r[k] == Reset(passes[k])
  {
    if passes == [] then [] else ResetEvents(passes[..|passes| - 1]) + [Reset(passes[|passes| - 1])]
  }

  /** The optimisation loop over one statement: each pass in turn becomes the
      current one and the statement is processed, until a call does not
      complete. */
  function Optimize(s: nat, p: Pass, os: seq<nat>, opt: Option<nat>, process: (nat, Pass, Option<nat>) -> Outcome): (r: Run)
    ensures |r.events| <= |os|
    ensures forall k :: 0 <= k < |r.events| ==> r.events[k] == Process(s, Some(os[k]))
    ensures r.outcome.Completed? ==> |r.events| == |os|
    ensures |r.events| < |os| ==> !r.outcome.Completed?
  {
    if os == [] then Run([], opt, Completed)
    else
      var prev := Optimize(s, p, os[..|os| - 1], opt, process);
      if !prev.outcome.Completed? then prev
      else
        var o := os[|os| - 1];
        Run(prev.events + [Process(s, Some(o))], Some(o), process(s, p, Some(o)))
  }

  /** The phase's work on one statement: the optimisation loop in an
      optimising phase, otherwise one process() call with the optimisation
      pass that is current. */
  function PhaseWork(s: nat, p: Pass, optimizing: bool, passes: seq<nat>, opt: Option<nat>,
                     process: (nat, Pass, Option<nat>) -> Outcome): Run
  {
    if optimizing then Optimize(s, p, passes, opt, process) else Run([Process(s, opt)], opt, process(s, p, opt))
  }

  /** One statement of executePass(): the resets, then the phase's work, then
      the log message when the work raised the dead-code signal. Only a fatal
      failure survives as the statement's outcome. */
  function StatementRun(s: nat, p: Pass, optimizing: bool, passes: seq<nat>, opt: Option<nat>,
                        process: (nat, Pass, Option<nat>) -> Outcome): (r: Run)
    ensures !r.outcome.DeadCode?
  {
    var work := PhaseWork(s, p, optimizing, passes, opt, process);
    var log := if work.outcome.DeadCode? then [Logged(s, DeadCodeMessage(work.outcome.line))] else [];
    Run(ResetEvents(passes) + work.events + log, work.optimization, if work.outcome.Fatal? then work.outcome else Completed)
  }

  /** The statement loop of executePass() over the statements in tree order,
      stopping at the first fatal failure. */
  function PassRun(ss: seq<nat>, p: Pass, optimizing: bool, passes: seq<nat>, opt: Option<nat>,
                   process: (nat, Pass, Option<nat>) -> Outcome): (r: Run)
    ensures !r.outcome.DeadCode?
  {
    if ss == [] then Run([], opt, Completed)
    else
      var prev := PassRun(ss[..|ss| - 1], p, optimizing, passes, opt, process);
      if prev.outcome.Fatal? then prev
      else
        var st := StatementRun(ss[|ss| - 1], p, optimizing, passes, prev.optimization, process);
        Run(prev.events + st.events, st.optimization, st.outcome)
  }

  /** One more statement after a prefix that did not fail: the prefix's run
      followed by that statement's run, from the optimisation pass the prefix
      left current. */
  lemma PassRunStep(ss: seq<nat>, i: nat, p: Pass, optimizing: bool, passes: seq<nat>, opt: Option<nat>,
                    process: (nat, Pass, Option<nat>) -> Outcome)
    requires i < |ss| && !PassRun(ss[..i], p, optimizing, passes, opt, process).outcome.Fatal?
    ensures var prev := PassRun(ss[..i], p, optimizing, passes, opt, process);
      var st := StatementRun(ss[i], p, optimizing, passes, prev.optimization, process);
      PassRun(ss[..i + 1], p, optimizing, passes, opt, process) == Run(prev.events + st.events, st.optimization, st.outcome)
  {
    assert ss[..i + 1][..i] == ss[..i];
  }

  /** Once a statement fails fatally, the statements after it are not visited. */
  lemma {:induction false} PassRunStops(ss: seq<nat>, p: Pass, optimizing: bool, passes: seq<nat>, opt: Option<nat>,
                                        process: (nat, Pass, Option<nat>) -> Outcome, j: nat)
    requires j <= |ss| && PassRun(ss[..j], p, optimizing, passes, opt, process).outcome.Fatal?
    ensures PassRun(ss, p, optimizing, passes, opt, process) == PassRun(ss[..j], p, optimizing, passes, opt, process)
    decreases |ss| - j
  {
    if j < |ss| {
      var n := |ss| - 1;
      assert ss[..n][..j] == ss[..j];
      PassRunStops(ss[..n], p, optimizing, passes, opt, process, j);
    } else {
      assert ss[..j] == ss;
    }
  }

  /** The statements that were processed, one entry per process() call. */
  function Processed(events: seq<Event>): (r: seq<nat>)
    ensures |r| <= |events|
  {
    if events == [] then []
    else
      var rest := Processed(events[..|events| - 1]);
      if events[|events| - 1].Process? then rest + [events[|events| - 1].statement] else rest
  }

  /** How many reset() calls the events hold. */
  function Resets(events: seq<Event>): (n: nat)
    ensures n <= |events|
  {
    if events == [] then 0 else Resets(events[..|events| - 1]) + (if events[|events| - 1].Reset? then 1 else 0)
  }

  lemma {:induction false} ProcessedAppend(a: seq<Event>, b: seq<Event>)
    ensures Processed(a + b) == Processed(a) + Processed(b)
    ensures Resets(a + b) == Resets(a) + Resets(b)
    decreases |b|
  {
    if b == [] {
      assert a + b == a;
    } else {
      var n := |b| - 1;
      assert (a + b)[..|a + b| - 1] == a + b[..n];
      ProcessedAppend(a, b[..n]);
    }
  }

  lemma {:induction false} ResetEventsCounted(passes: seq<nat>)
    ensures Processed(ResetEvents(passes)) == [] && Resets(ResetEvents(passes)) == |passes|
  {
    if passes != [] {
      var n := |passes| - 1;
      ResetEventsCounted(passes[..n]);
      ProcessedAppend(ResetEvents(passes[..n]), [Reset(passes[n])]);
    }
  }

  /** A statement's block starts with reset() of every registered pass, in
      list order, whatever the phase. */
  lemma StatementStartsWithResets(s: nat, p: Pass, optimizing: bool, passes: seq<nat>, opt: Option<nat>,
                                  process: (nat, Pass, Option<nat>) -> Outcome)
    ensures var r := StatementRun(s, p, optimizing, passes, opt, process);
      |r.events| >= |passes| && forall k :: 0 <= k < |passes| ==> r.events[k] == Reset(passes[k])
  {
  }

  /** Appending one event adds its statement when it is a process() call
      and one reset when it is a reset() call. */
  lemma ProcessedSnoc(a: seq<Event>, e: Event)
    ensures Processed(a + [e]) == if e.Process? then Processed(a) + [e.statement] else Processed(a)
    ensures Resets(a + [e]) == Resets(a) + (if e.Reset? then 1 else 0)
  {
    assert (a + [e])[..|a|] == a;
  }

  /** The events of a plain-phase statement: resets, the one process() call,
      and the log message when it raised the dead-code signal. */
  lemma PlainStatementEvents(s: nat, p: Pass, passes: seq<nat>, opt: Option<nat>,
                             process: (nat, Pass, Option<nat>) -> Outcome)
    ensures var r := StatementRun(s, p, false, passes, opt, process);
      && Processed(r.events) == [s] && Resets(r.events) == |passes|
      && r.optimization == opt && r.events[|passes|] == Process(s, opt)
  {
    var head := ResetEvents(passes) + [Process(s, opt)];
    ResetEventsCounted(passes);
    ProcessedSnoc(ResetEvents(passes), Process(s, opt));
    assert Processed(head) == [s] && Resets(head) == |passes|;
    var out := process(s, p, opt);
    if out.DeadCode? {
      ProcessedSnoc(head, Logged(s, DeadCodeMessage(out.line)));
      assert StatementRun(s, p, false, passes, opt, process).events == head + [Logged(s, DeadCodeMessage(out.line))];
    } else {
      assert StatementRun(s, p, false, passes, opt, process).events == head + [];
      assert head + [] == head;
    }
  }

  /** When every call completes, every pass is applied to the statement in
      list order, each being the current one while it runs, and the last one
      stays current. */
  lemma {:induction false} OptimizeAppliesAllInOrder(s: nat, p: Pass, os: seq<nat>, opt: Option<nat>,
                                                     process: (nat, Pass, Option<nat>) -> Outcome)
    requires forall k :: 0 <= k < |os| ==> process(s, p, Some(os[k])) == Completed
    ensures var r := Optimize(s, p, os, opt, process);
      && r.outcome == Completed
      && |r.events| == |os|
      && (forall k :: 0 <= k < |os| ==> r.events[k] == Process(s, Some(os[k])))
      && r.optimization == (if os == [] then opt else Some(os[|os| - 1]))
  {
    if os != [] {
      var n := |os| - 1;
      OptimizeAppliesAllInOrder(s, p, os[..n], opt, process);
    }
  }

  /** Once a call does not complete, the remaining passes are skipped. */
  lemma {:induction false} OptimizeStops(s: nat, p: Pass, os: seq<nat>, j: nat, opt: Option<nat>,
                                         process: (nat, Pass, Option<nat>) -> Outcome)
    requires j <= |os| && !Optimize(s, p, os[..j], opt, process).outcome.Completed?
    ensures Optimize(s, p, os, opt, process) == Optimize(s, p, os[..j], opt, process)
    decreases |os| - j
  {
    if j < |os| {
      var n := |os| - 1;
      assert os[..n][..j] == os[..j];
      OptimizeStops(s, p, os[..n], j, opt, process);
    } else {
      assert os[..j] == os;
    }
  }

  /** The dead-code signal from the pass at index j skips the passes after
      it, logs "Skipping removed expression at Line N" on the statement, and
      the statement ends normally so the walk goes on. */
  lemma DeadCodeSkipsRestAndLogs(s: nat, p: Pass, passes: seq<nat>, opt: Option<nat>,
                                 process: (nat, Pass, Option<nat>) -> Outcome, j: nat, line: nat)
    requires j < |passes|
    requires forall k :: 0 <= k < j ==> process(s, p, Some(passes[k])) == Completed
    requires process(s, p, Some(passes[j])) == DeadCode(line)
    ensures var r := StatementRun(s, p, true, passes, opt, process);
      && r.outcome == Completed
      && r.optimization == Some(passes[j])
      && |r.events| == |passes| + j + 2
      && r.events[|passes| + j] == Process(s, Some(passes[j]))
      && r.events[|r.events| - 1] == Logged(s, DeadCodeMessage(line))
      && forall k :: 0 <= k < |r.events| - 1 ==> !r.events[k].Logged?
  {
    var prefix := passes[..j + 1];
    assert prefix[..j] == passes[..j];
    OptimizeAppliesAllInOrder(s, p, passes[..j], opt, process);
    var w := Optimize(s, p, prefix, opt, process);
    assert w.outcome == DeadCode(line) && |w.events| == j + 1 && w.events[j] == Process(s, Some(passes[j]));
    assert forall k :: 0 <= k < |w.events| ==> w.events[k].Process?;
    OptimizeStops(s, p, passes, j + 1, opt, process);
  }

  /** An optimising-phase statement on which every pass completes: the
      resets, then every pass applied in list order, no message, and the last
      pass left current. */
  lemma OptimizingStatementCompletes(s: nat, p: Pass, passes: seq<nat>, opt: Option<nat>,
                                     process: (nat, Pass, Option<nat>) -> Outcome)
    requires passes != []
    requires forall k :: 0 <= k < |passes| ==> process(s, p, Some(passes[k])) == Completed
    ensures var r := StatementRun(s, p, true, passes, opt, process);
      && r.outcome == Completed
      && r.optimization == Some(passes[|passes| - 1])
      && |r.events| == 2 * |passes|
      && (forall k :: 0 <= k < |passes| ==> r.events[|passes| + k] == Process(s, Some(passes[k])))
      && forall e :: e in r.events ==> !e.Logged?
  {
    OptimizeAppliesAllInOrder(s, p, passes, opt, process);
    var r := StatementRun(s, p, true, passes, opt, process);
    assert r.events == ResetEvents(passes) + Optimize(s, p, passes, opt, process).events;
    forall e | e in r.events ensures !e.Logged? {
      var k :| 0 <= k < |r.events| && r.events[k] == e;
    }
  }

  /** The block an optimising phase is expected to give a statement on which
      every pass completes: reset() of every pass, then every pass applied to
      it, both in list order. */
  function AppliedBlock(s: nat, passes: seq<nat>): (r: seq<Event>)
    ensures |r| == 2 * |passes|
    ensures forall k :: 0 <= k < |passes| ==> r[k] == Reset(passes[k]) && r[|passes| + k] == Process(s, Some(passes[k]))
  {
    ResetEvents(passes) + seq(|passes|, k requires 0 <= k < |passes| => Process(s, Some(passes[k])))
  }

  /** The expected blocks of the statements, in tree order. */
  function AppliedBlocks(ss: seq<nat>, passes: seq<nat>): seq<Event>
  {
    if ss == [] then [] else AppliedBlocks(ss[..|ss| - 1], passes) + AppliedBlock(ss[|ss| - 1], passes)
  }

  /** In an optimising phase where every pass completes on every statement,
      the pass completes with each statement's block in tree order, and the
      last pass stays current. */
  lemma {:induction false} OptimizingPassAppliesAll(ss: seq<nat>, p: Pass, passes: seq<nat>, opt: Option<nat>,
                                                    process: (nat, Pass, Option<nat>) -> Outcome)
    requires forall i, k :: 0 <= i < |ss| && 0 <= k < |passes| ==> process(ss[i], p, Some(passes[k])) == Completed
    ensures var r := PassRun(ss, p, true, passes, opt, process);
      && r.outcome == Completed
      && r.events == AppliedBlocks(ss, passes)
      && r.optimization == (if ss == [] || passes == [] then opt else Some(passes[|passes| - 1]))
  {
    if ss != [] {
      var n := |ss| - 1;
      assert forall i :: 0 <= i < n ==> ss[..n][i] == ss[i];
      OptimizingPassAppliesAll(ss[..n], p, passes, opt, process);
      var prev := PassRun(ss[..n], p, true, passes, opt, process);
      PassRunStep(ss, n, p, true, passes, opt, process);
      assert ss[..n + 1] == ss;
      OptimizeAppliesAllInOrder(ss[n], p, passes, prev.optimization, process);
      var work := Optimize(ss[n], p, passes, prev.optimization, process);
      assert work.events == AppliedBlock(ss[n], passes)[|passes|..];
      assert ResetEvents(passes) == AppliedBlock(ss[n], passes)[..|passes|];
      assert StatementRun(ss[n], p, true, passes, prev.optimization, process).events
        == ResetEvents(passes) + work.events + [];
    }
  }

  /** In a plain phase with no fatal failure, every statement is processed
      exactly once, in tree order. */
  lemma {:induction false} PlainPassVisitsEachOnce(ss: seq<nat>, p: Pass, passes: seq<nat>, opt: Option<nat>,
                                                   process: (nat, Pass, Option<nat>) -> Outcome)
    requires forall k :: 0 <= k < |ss| ==> !process(ss[k], p, opt).Fatal?
    ensures var r := PassRun(ss, p, false, passes, opt, process);
      r.outcome == Completed && r.optimization == opt && Processed(r.events) == ss
  {
    if ss != [] {
      var n := |ss| - 1;
      PlainPassVisitsEachOnce(ss[..n], p, passes, opt, process);
      var prev := PassRun(ss[..n], p, false, passes, opt, process);
      var st := StatementRun(ss[n], p, false, passes, opt, process);
      PlainStatementEvents(ss[n], p, passes, opt, process);
      assert !st.outcome.Fatal?;
      PassRunStep(ss, n, p, false, passes, opt, process);
      assert ss[..n + 1] == ss;
      ProcessedAppend(prev.events, st.events);
      assert ss[..n] + [ss[n]] == ss;
    }
  }

  /** A plain-phase pass over one more statement after a prefix that did
      not fail: the prefix's events followed by that statement's block, and
      the optimisation pass is left as it was. */
  lemma PlainPassStep(ss: seq<nat>, i: nat, p: Pass, passes: seq<nat>, opt: Option<nat>,
                      process: (nat, Pass, Option<nat>) -> Outcome)
    requires i < |ss|
    requires !PassRun(ss[..i], p, false, passes, opt, process).outcome.Fatal?
    requires PassRun(ss[..i], p, false, passes, opt, process).optimization == opt
    requires !process(ss[i], p, opt).Fatal?
    ensures PassRun(ss[..i + 1], p, false, passes, opt, process).events
      == PassRun(ss[..i], p, false, passes, opt, process).events + StatementRun(ss[i], p, false, passes, opt, process).events
    ensures !PassRun(ss[..i + 1], p, false, passes, opt, process).outcome.Fatal?
    ensures PassRun(ss[..i + 1], p, false, passes, opt, process).optimization == opt
  {
    PassRunStep(ss, i, p, false, passes, opt, process);
  }

  /** A plain-phase statement logs a message exactly when it raised the
      dead-code signal, and then only that one. */
  lemma PlainStatementLogs(s: nat, p: Pass, passes: seq<nat>, opt: Option<nat>,
                           process: (nat, Pass, Option<nat>) -> Outcome)
    ensures var r := StatementRun(s, p, false, passes, opt, process);
      forall e :: e in r.events && e.Logged? ==>
        process(s, p, opt).DeadCode? && e == Logged(s, DeadCodeMessage(process(s, p, opt).line))
  {
    var r := StatementRun(s, p, false, passes, opt, process);
    forall e | e in r.events && e.Logged?
      ensures process(s, p, opt).DeadCode? && e == Logged(s, DeadCodeMessage(process(s, p, opt).line))
    {
      assert e !in ResetEvents(passes);
    }
  }

  /** A plain-phase pass over three statements none of which failed is the
      three statements' blocks one after the other. */
  lemma PlainPassThree(a: nat, b: nat, c: nat, p: Pass, passes: seq<nat>, opt: Option<nat>,
                       process: (nat, Pass, Option<nat>) -> Outcome)
    requires !process(a, p, opt).Fatal? && !process(b, p, opt).Fatal? && !process(c, p, opt).Fatal?
    ensures PassRun([a, b, c], p, false, passes, opt, process).events
      == StatementRun(a, p, false, passes, opt, process).events
       + StatementRun(b, p, false, passes, opt, process).events
       + StatementRun(c, p, false, passes, opt, process).events
  {
    var ss := [a, b, c];
    var ra := StatementRun(a, p, false, passes, opt, process).events;
    var rb := StatementRun(b, p, false, passes, opt, process).events;
    var rc := StatementRun(c, p, false, passes, opt, process).events;
    assert ss[..0] == [] && ss[0] == a && ss[1] == b && ss[2] == c;
    PlainPassStep(ss, 0, p, passes, opt, process);
    assert PassRun(ss[..1], p, false, passes, opt, process).events == ra;
    PlainPassStep(ss, 1, p, passes, opt, process);
    assert PassRun(ss[..2], p, false, passes, opt, process).events == ra + rb;
    PlainPassStep(ss, 2, p, passes, opt, process);
    assert ss[..3] == [a, b, c];
  }

  /** Dead-code recovery over three statements: when the middle one raises
      the signal, the pass still completes, all three are processed, and only
      the middle one carries the message with its line number. */
  lemma DeadCodeRecovery(a: nat, b: nat, c: nat, p: Pass, passes: seq<nat>, opt: Option<nat>,
                         process: (nat, Pass, Option<nat>) -> Outcome, line: nat)
    requires process(a, p, opt) == Completed && process(c, p, opt) == Completed
    requires process(b, p, opt) == DeadCode(line)
    ensures var r := PassRun([a, b, c], p, false, passes, opt, process);
      r.outcome == Completed && Processed(r.events) == [a, b, c]
      && Logged(b, DeadCodeMessage(line)) in r.events
      && forall e :: e in r.events && e.Logged? ==> e == Logged(b, DeadCodeMessage(line))
  {
    PlainPassVisitsEachOnce([a, b, c], p, passes, opt, process);
    PlainThreeLogs(a, b, c, p, passes, opt, process, line);
  }

  /** The messages of a plain-phase pass over three statements when only the
      middle one raises the dead-code signal. */
  lemma PlainThreeLogs(a: nat, b: nat, c: nat, p: Pass, passes: seq<nat>, opt: Option<nat>,
                       process: (nat, Pass, Option<nat>) -> Outcome, line: nat)
    requires process(a, p, opt) == Completed && process(c, p, opt) == Completed
    requires process(b, p, opt) == DeadCode(line)
    ensures var events := PassRun([a, b, c], p, false, passes, opt, process).events;
      Logged(b, DeadCodeMessage(line)) in events
      && forall e :: e in events && e.Logged? ==> e == Logged(b, DeadCodeMessage(line))
  {
    var r0 := StatementRun(a, p, false, passes, opt, process);
    var r1 := StatementRun(b, p, false, passes, opt, process);
    var r2 := StatementRun(c, p, false, passes, opt, process);
    PlainPassThree(a, b, c, p, passes, opt, process);
    var events := PassRun([a, b, c], p, false, passes, opt, process).events;
    assert events == r0.events + r1.events + r2.events;
    assert r1.events[|r1.events| - 1] == Logged(b, DeadCodeMessage(line));
    assert r1.events[|r1.events| - 1] in events;
    PlainStatementLogs(a, p, passes, opt, process);
    PlainStatementLogs(b, p, passes, opt, process);
    PlainStatementLogs(c, p, passes, opt, process);
    forall e | e in events && e.Logged? ensures e == Logged(b, DeadCodeMessage(line)) {
      if e in r0.events {
        assert false;
      } else if e in r2.events {
        assert false;
      }
    }
  }

  /** A pass over three statements the first two of which did not fail is
      the three statements' runs one after the other, each starting from the
      optimisation pass the one before left current. */
  lemma PassThree(a: nat, b: nat, c: nat, p: Pass, optimizing: bool, passes: seq<nat>, opt: Option<nat>,
                  process: (nat, Pass, Option<nat>) -> Outcome)
    requires !StatementRun(a, p, optimizing, passes, opt, process).outcome.Fatal?
    requires !StatementRun(b, p, optimizing, passes, StatementRun(a, p, optimizing, passes, opt, process).optimization, process).outcome.Fatal?
    ensures var ra := StatementRun(a, p, optimizing, passes, opt, process);
      var rb := StatementRun(b, p, optimizing, passes, ra.optimization, process);
      var rc := StatementRun(c, p, optimizing, passes, rb.optimization, process);
      PassRun([a, b, c], p, optimizing, passes, opt, process) == Run(ra.events + rb.events + rc.events, rc.optimization, rc.outcome)
  {
    var ss := [a, b, c];
    assert ss[..0] == [] && ss[0] == a && ss[1] == b && ss[2] == c && ss[..3] == ss;
    var ra := StatementRun(a, p, optimizing, passes, opt, process);
    var rb := StatementRun(b, p, optimizing, passes, ra.optimization, process);
    var rc := StatementRun(c, p, optimizing, passes, rb.optimization, process);
    PassRunStep(ss, 0, p, optimizing, passes, opt, process);
    assert [] + ra.events == ra.events;
    var r1 := PassRun(ss[..1], p, optimizing, passes, opt, process);
    assert r1 == Run(ra.events, ra.optimization, ra.outcome);
    PassRunStep(ss, 1, p, optimizing, passes, opt, process);
    var r2 := PassRun(ss[..2], p, optimizing, passes, opt, process);
    assert r2 == Run(ra.events + rb.events, rb.optimization, rb.outcome);
    PassRunStep(ss, 2, p, optimizing, passes, opt, process);
  }

  /** Dead-code recovery over three statements in an optimising phase: when
      the middle one raises the signal at some pass, the pass still
      completes, every pass is applied to the first and the last statement,
      and only the middle one carries the message with its line number. */
  lemma OptimizingDeadCodeRecovery(a: nat, b: nat, c: nat, p: Pass, passes: seq<nat>, opt: Option<nat>,
                                   process: (nat, Pass, Option<nat>) -> Outcome, j: nat, line: nat)
    requires j < |passes|
    requires forall k :: 0 <= k < |passes| ==> process(a, p, Some(passes[k])) == Completed
    requires forall k :: 0 <= k < |passes| ==> process(c, p, Some(passes[k])) == Completed
    requires forall k :: 0 <= k < j ==> process(b, p, Some(passes[k])) == Completed
    requires process(b, p, Some(passes[j])) == DeadCode(line)
    ensures var r := PassRun([a, b, c], p, true, passes, opt, process);
      && r.outcome == Completed
      && r.optimization == Some(passes[|passes| - 1])
      && Logged(b, DeadCodeMessage(line)) in r.events
      && (forall e :: e in r.events && e.Logged? ==> e == Logged(b, DeadCodeMessage(line)))
      && forall k :: 0 <= k < |passes| ==>
           Process(a, Some(passes[k])) in r.events && Process(c, Some(passes[k])) in r.events
  {
    var ra := StatementRun(a, p, true, passes, opt, process);
    OptimizingStatementCompletes(a, p, passes, opt, process);
    var rb := StatementRun(b, p, true, passes, ra.optimization, process);
    DeadCodeSkipsRestAndLogs(b, p, passes, ra.optimization, process, j, line);
    var rc := StatementRun(c, p, true, passes, rb.optimization, process);
    OptimizingStatementCompletes(c, p, passes, rb.optimization, process);
    PassThree(a, b, c, p, true, passes, opt, process);
    var r := PassRun([a, b, c], p, true, passes, opt, process);
    assert r.events == ra.events + rb.events + rc.events;
    assert rb.events[|rb.events| - 1] in r.events;
    forall e | e in r.events && e.Logged? ensures e == Logged(b, DeadCodeMessage(line)) {
      if e in rb.events {
        var k :| 0 <= k < |rb.events| && rb.events[k] == e;
      }
    }
    forall k | 0 <= k < |passes|
      ensures Process(a, Some(passes[k])) in r.events && Process(c, Some(passes[k])) in r.events
    {
      assert ra.events[|passes| + k] in r.events;
      assert rc.events[|passes| + k] in r.events;
    }
  }

  /** The driver: the current phase and optimisation pass, the registered
      optimisation passes, and the calls it has made into the outside. */
  class BaseCompiler {
    var currentPass: Pass
    var currentOptimization: Option<nat>
    var passes: seq<nat>
    var trace: seq<Event>

    /** Which phases are optimisation phases. */
    const isOptimizationPass: Pass -> bool
    /** A statement's process(), given the phase and the current optimisation
        pass. */
    const process: (nat, Pass, Option<nat>) -> Outcome
    /** An optimisation pass's processStatementInternal(), given the statement,
        the phase and the pass; it is a separate entry point of the pass, not
        the statement's process(). */
    const processInternal: (nat, Pass, nat) -> Outcome

    constructor(classify: Pass -> bool, processStatement: (nat, Pass, Option<nat>) -> Outcome,
                applyPass: (nat, Pass, nat) -> Outcome, registered: seq<nat>, start: Pass)
      ensures currentPass == start && currentOptimization == None && passes == registered && trace == []
      ensures isOptimizationPass == classify && process == processStatement && processInternal == applyPass
    {
      currentPass := start;
      currentOptimization := None;
      passes := registered;
      trace := [];
      isOptimizationPass := classify;
      process := processStatement;
      processInternal := applyPass;
    }

    /** executeOptimization(): only the current optimisation pass's internal
        processing is applied to the statement; nothing happens when there is
        no current pass. */
    method ExecuteOptimization(s: nat) returns (outcome: Outcome)
      modifies this
      ensures currentOptimization.None? ==> outcome == Completed && trace == old(trace)
      ensures currentOptimization.Some? ==>
        outcome == processInternal(s, currentPass, currentOptimization.value)
        && trace == old(trace) + [Applied(s, currentOptimization.value)]
      ensures currentPass == old(currentPass) && currentOptimization == old(currentOptimization) && passes == old(passes)
    {
      if currentOptimization.None? {
        return Completed;
      }
      trace := trace + [Applied(s, currentOptimization.value)];
      outcome := processInternal(s, currentPass, currentOptimization.value);
    }

    /** The optimisation loop over one statement, recording its calls. */
    method OptimizeStatement(s: nat) returns (outcome: Outcome)
      modifies this
      ensures var w := Optimize(s, currentPass, passes, old(currentOptimization), process);
        trace == old(trace) + w.events && currentOptimization == w.optimization && outcome == w.outcome
      ensures currentPass == old(currentPass) && passes == old(passes)
    {
      ghost var trace0 := trace;
      ghost var opt0 := currentOptimization;
      outcome := Completed;
      var j := 0;
      while j < |passes| && outcome.Completed?
        invariant 0 <= j <= |passes|
        invariant currentPass == old(currentPass) && passes == old(passes)
        invariant var w := Optimize(s, currentPass, passes[..j], opt0, process);
          trace == trace0 + w.events && currentOptimization == w.optimization && outcome == w.outcome
      {
        assert passes[..j + 1][..j] == passes[..j];
        currentOptimization := Some(passes[j]);
        trace := trace + [Process(s, currentOptimization)];
        outcome := process(s, currentPass, currentOptimization);
        j := j + 1;
      }
      if j < |passes| {
        OptimizeStops(s, currentPass, passes, j, opt0, process);
      } else {
        assert passes[..j] == passes;
      }
    }

    /** reset() on every registered pass, in list order. */
    method ResetPasses()
      modifies this
      ensures trace == old(trace) + ResetEvents(passes)
      ensures currentPass == old(currentPass) && passes == old(passes) && currentOptimization == old(currentOptimization)
    {
      var k := 0;
      while k < |passes|
        invariant 0 <= k <= |passes|
        invariant currentPass == old(currentPass) && passes == old(passes) && currentOptimization == old(currentOptimization)
        invariant trace == old(trace) + ResetEvents(passes[..k])
      {
        assert passes[..k + 1][..k] == passes[..k];
        trace := trace + [Reset(passes[k])];
        k := k + 1;
      }
      assert passes[..k] == passes;
    }

    /** The phase's work on one statement, recording its calls. */
    method RunPhaseWork(s: nat, optimizing: bool) returns (outcome: Outcome)
      modifies this
      ensures var w := PhaseWork(s, currentPass, optimizing, passes, old(currentOptimization), process);
        trace == old(trace) + w.events && currentOptimization == w.optimization && outcome == w.outcome
      ensures currentPass == old(currentPass) && passes == old(passes)
    {
      if optimizing {
        outcome := OptimizeStatement(s);
      } else {
        trace := trace + [Process(s, currentOptimization)];
        outcome := process(s, currentPass, currentOptimization);
      }
    }

    /** One statement of executePass(): every pass is reset, then the phase's
        work runs, and the dead-code signal becomes a log message. */
    method RunStatement(s: nat, optimizing: bool) returns (outcome: Outcome)
      modifies this
      ensures var st := StatementRun(s, currentPass, optimizing, passes, old(currentOptimization), process);
        trace == old(trace) + st.events && currentOptimization == st.optimization && outcome == st.outcome
      ensures currentPass == old(currentPass) && passes == old(passes)
    {
      ResetPasses();
      outcome := RunPhaseWork(s, optimizing);
      if outcome.DeadCode? {
        trace := trace + [Logged(s, DeadCodeMessage(outcome.line))];
        outcome := Completed;
      }
    }

    /** One turn of the statement loop of executePass(): the next statement
        runs after a prefix that did not fail. */
    method RunNext(statements: seq<nat>, i: nat, optimizing: bool, ghost opt0: Option<nat>, ghost trace0: seq<Event>)
      returns (outcome: Outcome)
      requires i < |statements|
      requires var run := PassRun(statements[..i], currentPass, optimizing, passes, opt0, process);
        !run.outcome.Fatal? && trace == trace0 + run.events && currentOptimization == run.optimization
      modifies this
      ensures currentPass == old(currentPass) && passes == old(passes)
      ensures var run := PassRun(statements[..i + 1], currentPass, optimizing, passes, opt0, process);
        trace == trace0 + run.events && currentOptimization == run.optimization && outcome == run.outcome
    {
      PassRunStep(statements, i, currentPass, optimizing, passes, opt0, process);
      outcome := RunStatement(statements[i], optimizing);
    }

    /** The statement loop of executePass(), in tree order. */
    method RunStatements(statements: seq<nat>, optimizing: bool) returns (r: Status)
      modifies this
      ensures var run := PassRun(statements, currentPass, optimizing, passes, old(currentOptimization), process);
        && trace == old(trace) + run.events
        && currentOptimization == run.optimization
        && r == (if run.outcome.Fatal? then Fail(run.outcome.message) else Ok)
      ensures currentPass == old(currentPass) && passes == old(passes)
    {
      ghost var trace0 := trace;
      ghost var opt0 := currentOptimization;
      var i := 0;
      while i < |statements|
        invariant 0 <= i <= |statements|
        invariant currentPass == old(currentPass) && passes == old(passes)
        invariant var run := PassRun(statements[..i], currentPass, optimizing, passes, opt0, process);
          !run.outcome.Fatal? && trace == trace0 + run.events && currentOptimization == run.optimization
      {
        var outcome := RunNext(statements, i, optimizing, opt0, trace0);
        if outcome.Fatal? {
          PassRunStops(statements, currentPass, optimizing, passes, opt0, process, i + 1);
          return Fail(outcome.message);
        }
        i := i + 1;
      }
      assert statements[..i] == statements;
      return Ok;
    }

    /** executePass() */
    method ExecutePass(p: Pass, statements: seq<nat>) returns (r: Status)
      modifies this
      ensures isOptimizationPass(p) && old(passes) == [] ==>
        r == Ok && currentPass == old(currentPass) && currentOptimization == old(currentOptimization) && trace == old(trace)
      ensures !(isOptimizationPass(p) && old(passes) == []) ==>
        var run := PassRun(statements, p, isOptimizationPass(p), passes, old(currentOptimization), process);
        && currentPass == p
        && trace == old(trace) + run.events
        && currentOptimization == run.optimization
        && r == (if run.outcome.Fatal? then Fail(run.outcome.message) else Ok)
      ensures passes == old(passes)
    {
      var optimizing := isOptimizationPass(p);
      if optimizing && |passes| == 0 {
        return Ok;
      }
      currentPass := p;
      r := RunStatements(statements, optimizing);
    }
  }
}
