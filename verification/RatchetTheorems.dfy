/** The ratchet never loosens. */
module RatchetTheorems {
  import opened Ordering
  import opened Ratchet

  // ----- What a passing run has checked -------------------------------------------------------

  lemma {:induction false} NoFindings(results: seq<Result>, baseline: map<string, int>)
    ensures (forall f :: f in FindingsOf(results, baseline) ==> f.blocking)
    ensures FindingsOf(results, baseline) == [] <==> forall r :: r in results ==> !Violates(r, baseline)
  {
    if results != [] {
      SplitLast(results);
      NoFindings(results[..|results| - 1], baseline);
    }
  }

  lemma {:induction false} NoneBroken(results: seq<Result>)
    ensures BrokenOf(results) == [] <==> forall r :: r in results ==> !Broken(r)
  {
    if results != [] {
      SplitLast(results);
      NoneBroken(results[..|results| - 1]);
    }
  }

  lemma {:induction false} NoneUnevaluated(langs: seq<string>, results: seq<Result>)
    ensures UnevaluatedOf(langs, results) == [] <==> forall lang :: lang in langs ==> LangRan(results, lang)
  {
    if langs != [] {
      SplitLast(langs);
      NoneUnevaluated(langs[..|langs| - 1], results);
    }
  }

  /** Every check did its job and stayed within bounds, and every staged language was really
      evaluated. */
  ghost predicate Sound(langs: set<string>, results: seq<Result>, baseline: map<string, int>) {
    && (forall r :: r in results ==> !Broken(r) && !Violates(r, baseline))
    && (forall lang :: lang in langs ==> LangRan(results, lang))
  }

  lemma BlockingFindings(others: seq<Finding>, own: seq<Finding>)
    requires forall f :: f in own ==> f.blocking
    ensures (exists f :: f in others + own && f.blocking) <==> (exists f :: f in others && f.blocking) || own != []
  {
    if own != [] {
      assert own[0] in others + own;
    }
  }

  lemma AllEvaluated(langs: set<string>, results: seq<Result>)
    ensures UnevaluatedOf(SetKeys(langs), results) == [] <==> forall lang :: lang in langs ==> LangRan(results, lang)
  {
    NoneUnevaluated(SetKeys(langs), results);
    forall lang
      ensures lang in SetKeys(langs) <==> lang in langs
    {
      assert lang in SetOf(SetKeys(langs)) <==> lang in SetKeys(langs);
    }
  }

  /** The hook exits 0 exactly when the structural layer is sound, the other layer blocks
      nothing, and a requested capture has something to record. */
  lemma PassExact(file: Stored, i: Invocation)
    ensures HookExit(file, i) == EXIT_OK <==>
            && Sound(i.langs, i.results, LoadBaseline(file))
            && i.otherTooling == [] && (forall f :: f in i.otherFindings ==> !f.blocking)
            && (i.write && !i.force ==> MetricsOf(i.results) != map[])
  {
    var own := FindingsOf(i.results, LoadBaseline(file));
    NoFindings(i.results, LoadBaseline(file));
    NoneBroken(i.results);
    AllEvaluated(i.langs, i.results);
    BlockingFindings(i.otherFindings, own);
  }

  /** The whole command exits 0 exactly when it was told to skip, nothing is staged, or all that is
      staged could be read and the two layers pass. */
  lemma CommandPassExact(file: Stored, g: Staging, i: Invocation)
    ensures CommandExit(file, g, i) == EXIT_OK <==>
            || g.skip || g.files == 0
            || (&& (g.allowDivergence || g.diverging == Some(0)) && g.missing == 0
                && (g.unknown == 0 || !g.failOnUnknown) && (!g.required || g.installed)
                && Sound(i.langs, i.results, LoadBaseline(file))
                && i.otherTooling == [] && (forall f :: f in i.otherFindings ==> !f.blocking)
                && (i.write && !i.force ==> MetricsOf(i.results) != map[]))
  {
    PassExact(file, i);
  }

  /** In a sound run every repo metric is at or below its ceiling, an absent one reading as 0. */
  lemma {:induction false} MeasuredWithin(results: seq<Result>, baseline: map<string, int>, key: string)
    requires forall r :: r in results ==> !Violates(r, baseline)
    ensures key in MetricsOf(results) ==> MetricsOf(results)[key] <= Ceiling(baseline, key)
  {
    if results != [] {
      SplitLast(results);
      assert !Violates(results[|results| - 1], baseline);
      MeasuredWithin(results[..|results| - 1], baseline, key);
    }
  }

  /** A check died in some process of its attempt. */
  ghost predicate Crashed(c: Check, a: Attempt) {
    a.Ran? && a.processes != []
    && if c.scope == "file" && c.usesFiles then exists p :: p in a.processes && Died(c, p) else Died(c, a.processes[0])
  }

  /** A crash in any chunk, whatever the other chunks did, breaks the check. */
  lemma CrashBreaks(c: Check, a: Attempt, r: Result)
    requires Concludes(c, a, r) && Crashed(c, a)
    ensures Broken(r)
  {
  }

  /** A check that passes uncounted or at zero either exited cleanly or with the findings
      code; a skipped one is never taken for a pass. */
  lemma SkippedNeverEvaluates(c: Check, a: Attempt, r: Result)
    requires Concludes(c, a, r) && Evaluated(r)
    ensures a.Ran? && !Crashed(c, a)
    ensures r.metric == Some(0) ==> r.rc == 0
  {
    if Crashed(c, a) {
      CrashBreaks(c, a, r);
    }
  }

  /** One scheduled check and how it went. */
  datatype Job = Job(check: Check, attempt: Attempt)

  ghost predicate ResultsOf(jobs: seq<Job>, results: seq<Result>) {
    |jobs| == |results| && forall k :: 0 <= k < |jobs| ==> Concludes(jobs[k].check, jobs[k].attempt, results[k])
  }

  /** A file-scoped check runs once per chunk of staged files, and a staged language has a file. */
  ghost predicate Staged(jobs: seq<Job>) {
    forall j :: j in jobs && j.attempt.Ran? && j.check.scope == "file" && j.check.usesFiles ==>
      j.attempt.processes != []
  }

  /** Some process of the check came to an end, and none that was judged died. */
  ghost predicate ReallyRan(j: Job) {
    j.attempt.Ran? && j.attempt.processes != [] && !Crashed(j.check, j.attempt)
  }

  lemma EvaluatedRan(j: Job, r: Result)
    requires Staged([j]) && Concludes(j.check, j.attempt, r) && Evaluated(r)
    ensures ReallyRan(j)
  {
    SkippedNeverEvaluates(j.check, j.attempt, r);
    assert j in [j];
  }

  lemma ResultCheck(c: Check, a: Attempt, r: Result)
    requires Concludes(c, a, r)
    ensures r.check == c
  {
  }

  /** What a commit that passed the hook has been through: no process of any check died, each
      staged language had a check that really ran, and no repo metric is above its ceiling. */
  lemma PassMeansChecked(file: Stored, i: Invocation, jobs: seq<Job>)
    requires Staged(jobs) && ResultsOf(jobs, i.results) && HookExit(file, i) == EXIT_OK
    ensures forall k :: 0 <= k < |jobs| ==> !Crashed(jobs[k].check, jobs[k].attempt)
    ensures forall lang :: lang in i.langs ==> exists j :: j in jobs && j.check.lang == lang && ReallyRan(j)
    ensures forall key :: key in MetricsOf(i.results) ==> MetricsOf(i.results)[key] <= Ceiling(LoadBaseline(file), key)
  {
    PassExact(file, i);
    forall k | 0 <= k < |jobs| ensures !Crashed(jobs[k].check, jobs[k].attempt) {
      if Crashed(jobs[k].check, jobs[k].attempt) {
        CrashBreaks(jobs[k].check, jobs[k].attempt, i.results[k]);
      }
    }
    forall lang | lang in i.langs ensures exists j :: j in jobs && j.check.lang == lang && ReallyRan(j) {
      assert LangRan(i.results, lang);
      var k :| 0 <= k < |jobs| && i.results[k].check.lang == lang && Evaluated(i.results[k]);
      assert jobs[k] in jobs;
      ResultCheck(jobs[k].check, jobs[k].attempt, i.results[k]);
      EvaluatedRan(jobs[k], i.results[k]);
    }
    forall key | key in MetricsOf(i.results) ensures MetricsOf(i.results)[key] <= Ceiling(LoadBaseline(file), key) {
      MeasuredWithin(i.results, LoadBaseline(file), key);
    }
  }

  // ----- Captures -----------------------------------------------------------------------------------

  /** Loading what a capture wrote: the measured metrics, and every other usable entry as it
      was. */
  lemma CaptureMerges(file: Stored, metrics: map<string, nat>, key: string)
    ensures var before, after := LoadBaseline(file), LoadBaseline(WriteBaseline(file, metrics));
            && (key in after <==> key in before || key in metrics)
            && (key in metrics ==> after[key] == metrics[key])
            && (key !in metrics && key in before ==> after[key] == before[key])
  {
  }

  /** Some ceiling of the second baseline is above the first's. */
  ghost predicate Raises(after: map<string, int>, before: map<string, int>) {
    exists key :: Ceiling(after, key) > Ceiling(before, key)
  }

  /** Some repo metric of the run is above its stored ceiling. */
  ghost predicate Exceeds(results: seq<Result>, baseline: map<string, int>) {
    exists key :: key in MetricsOf(results) && MetricsOf(results)[key] > Ceiling(baseline, key)
  }

  /** A write raises some ceiling exactly when it records a metric above its ceiling. */
  lemma CaptureRaisesIff(file: Stored, metrics: map<string, nat>)
    ensures var before, after := LoadBaseline(file), LoadBaseline(WriteBaseline(file, metrics));
            Raises(after, before) <==> exists key :: key in metrics && metrics[key] > Ceiling(before, key)
  {
    var before, after := LoadBaseline(file), LoadBaseline(WriteBaseline(file, metrics));
    forall key { CaptureMerges(file, metrics, key); }
    if key :| key in metrics && metrics[key] > Ceiling(before, key) {
      assert Ceiling(after, key) > Ceiling(before, key);
    }
    if key :| Ceiling(after, key) > Ceiling(before, key) {
      assert key in metrics;
    }
  }

  /** A hook raises a ceiling exactly when it captures a run with a metric above its ceiling,
      and then it does not exit 0: the debt it has just blocked is what it locks in. */
  lemma HookRaisesIff(file: Stored, i: Invocation)
    ensures Raises(LoadBaseline(HookFile(file, i)), LoadBaseline(file)) <==>
            i.write && !Refused(i) && Exceeds(i.results, LoadBaseline(file))
    ensures Raises(LoadBaseline(HookFile(file, i)), LoadBaseline(file)) ==> HookExit(file, i) != EXIT_OK
  {
    CaptureRaisesIff(file, MetricsOf(i.results));
    if HookExit(file, i) == EXIT_OK {
      PassingStep(file, i);
    }
  }

  /** The baseline command raises a ceiling under the same condition, and exits 0 whenever it
      writes. */
  lemma BaselineRaisesIff(file: Stored, c: Capture)
    ensures Raises(LoadBaseline(CaptureFile(file, c)), LoadBaseline(file)) <==>
            c.write && !CaptureRefused(c) && Exceeds(c.results, LoadBaseline(file))
  {
    CaptureRaisesIff(file, MetricsOf(c.results));
  }

  function Lint(metric: nat): Result {
    Result(Check("python", "ruff", "repo", true, true, false, {}), false, Some(metric), 1, false, false)
  }

  /** A hook that blocks the commit for one finding, and with `--write-baseline` lets the next
      one pass: the ceiling it raised is that finding. */
  lemma CaptureUnblocks()
    ensures var i := Invocation({"python"}, [Lint(1)], [], [], true, false);
            && HookExit(Absent, i) == EXIT_VIOLATION
            && Ceiling(LoadBaseline(Absent), "python/ruff") == 0
            && Ceiling(LoadBaseline(HookFile(Absent, i)), "python/ruff") == 1
            && HookExit(HookFile(Absent, i), i) == EXIT_OK
  {
    var i := Invocation({"python"}, [Lint(1)], [], [], true, false);
    var r := Lint(1);
    OneLint(r);
    assert Key(r.check) == "python/ruff";
    assert LangRan([r], "python") by { assert r in [r]; }
    AllEvaluated({"python"}, [r]);
    assert ToolingOf(i) == [];
    assert MetricsOf([r]) == map["python/ruff" := 1];
    assert "python/ruff" in MetricsOf([r]);
    assert !Refused(i);
    var f := Finding("python", "python/ruff", true);
    assert FindingsOf([r], LoadBaseline(Absent)) == [f];
    assert [] + [f] == [f] && f in [f];
    CaptureMerges(Absent, MetricsOf([r]), "python/ruff");
    PassExact(HookFile(Absent, i), i);
    assert !Violates(r, LoadBaseline(HookFile(Absent, i)));
  }

  lemma OneLint(r: Result)
    requires Measured(r) && !Broken(r)
    ensures BrokenOf([r]) == [] && MetricsOf([r]) == map[Key(r.check) := r.metric.value]
    ensures forall b :: FindingsOf([r], b) == if Violates(r, b) then [Finding(r.check.lang, Key(r.check), true)] else []
  {
    assert [r][..0] == [];
    assert BrokenOf([]) == [] && MetricsOf([]) == map[];
    forall b ensures FindingsOf([], b) == [] {}
  }

  /** The entries of one baseline are at or below those of another, and none is lost. */
  ghost predicate Tighter(after: map<string, int>, before: map<string, int>) {
    && (forall key :: Ceiling(after, key) <= Ceiling(before, key))
    && (forall key :: key in before ==> key in after)
  }

  lemma PassingStep(file: Stored, i: Invocation)
    requires HookExit(file, i) == EXIT_OK
    ensures Tighter(LoadBaseline(HookFile(file, i)), LoadBaseline(file))
    ensures forall key :: key in LoadBaseline(file) && key !in MetricsOf(i.results) ==>
              LoadBaseline(HookFile(file, i))[key] == LoadBaseline(file)[key]
  {
    PassExact(file, i);
    var before, after := LoadBaseline(file), LoadBaseline(HookFile(file, i));
    forall key
      ensures Ceiling(after, key) <= Ceiling(before, key)
      ensures key in before ==> key in after
      ensures key in before && key !in MetricsOf(i.results) ==> after[key] == before[key]
    {
      MeasuredWithin(i.results, before, key);
      CaptureMerges(file, MetricsOf(i.results), key);
    }
  }

  /** The file after a run of hook invocations. */
  ghost function After(file: Stored, run: seq<Invocation>): Stored {
    if run == [] then file else HookFile(After(file, run[..|run| - 1]), run[|run| - 1])
  }

  /** Every invocation of the run exits 0. */
  ghost predicate Passing(file: Stored, run: seq<Invocation>) {
    run == [] || (Passing(file, run[..|run| - 1]) && HookExit(After(file, run[..|run| - 1]), run[|run| - 1]) == EXIT_OK)
  }

  /** Along any run of passing hooks, capturing or not, no ceiling rises and no entry is
      lost. */
  lemma {:induction false} CeilingsNeverRise(file: Stored, run: seq<Invocation>)
    requires Passing(file, run)
    ensures Tighter(LoadBaseline(After(file, run)), LoadBaseline(file))
    decreases |run|
  {
    if run != [] {
      CeilingsNeverRise(file, run[..|run| - 1]);
      PassingStep(After(file, run[..|run| - 1]), run[|run| - 1]);
    }
  }

  /** A hook, or a `baseline` command between hooks. */
  datatype Event = Commit(staging: Staging, hook: Invocation) | Record(capture: Capture)

  ghost function FileAfter(file: Stored, run: seq<Event>): Stored {
    if run == [] then file
    else
      var before := FileAfter(file, run[..|run| - 1]);
      match run[|run| - 1]
      case Commit(staging, hook) => CommandFile(before, staging, hook)
      case Record(capture) => CaptureFile(before, capture)
  }

  /** The hook's layers ran, and measured what the capture records. */
  predicate Measures(e: Event, c: Capture) {
    e.Commit? && !Bypassed(e.staging) && e.hook.results == c.results
  }

  /** Every hook exits 0, and every capture by the command is of the results of the hook just
      before it. */
  ghost predicate Orderly(file: Stored, run: seq<Event>) {
    run == [] ||
    var init := run[..|run| - 1];
    && Orderly(file, init)
    && match run[|run| - 1]
       case Commit(staging, hook) => CommandExit(FileAfter(file, init), staging, hook) == EXIT_OK
       case Record(capture) =>
         init != [] && Measures(init[|init| - 1], capture)
  }

  /** What a passing hook measured stays within the ceilings it leaves. */
  lemma PassedWithin(file: Stored, i: Invocation, key: string)
    requires HookExit(file, i) == EXIT_OK && key in MetricsOf(i.results)
    ensures MetricsOf(i.results)[key] <= Ceiling(LoadBaseline(HookFile(file, i)), key)
  {
    PassExact(file, i);
    MeasuredWithin(i.results, LoadBaseline(file), key);
    CaptureMerges(file, MetricsOf(i.results), key);
  }

  /** A capture of what a passing hook measured tightens the ceilings it left. */
  lemma RecordingStep(file: Stored, i: Invocation, c: Capture)
    requires HookExit(file, i) == EXIT_OK && c.results == i.results
    ensures Tighter(LoadBaseline(CaptureFile(HookFile(file, i), c)), LoadBaseline(HookFile(file, i)))
  {
    var before, metrics := HookFile(file, i), MetricsOf(c.results);
    forall key
      ensures key in LoadBaseline(before) ==> key in LoadBaseline(CaptureFile(before, c))
      ensures Ceiling(LoadBaseline(CaptureFile(before, c)), key) <= Ceiling(LoadBaseline(before), key)
    {
      if key in metrics { PassedWithin(file, i, key); }
      CaptureMerges(before, metrics, key);
    }
  }

  lemma TighterStill(a: map<string, int>, b: map<string, int>, c: map<string, int>)
    requires Tighter(c, b) && Tighter(b, a)
    ensures Tighter(c, a)
  {
  }

  lemma OrderlyStep(file: Stored, run: seq<Event>)
    requires run != [] && Orderly(file, run)
    ensures Tighter(LoadBaseline(FileAfter(file, run)), LoadBaseline(FileAfter(file, run[..|run| - 1])))
  {
    var init := run[..|run| - 1];
    match run[|run| - 1]
    case Commit(staging, hook) =>
      if !Bypassed(staging) { PassingStep(FileAfter(file, init), hook); }
    case Record(capture) =>
      RecordingStep(FileAfter(file, init[..|init| - 1]), init[|init| - 1].hook, capture);
  }

  /** Along any run of hooks that exit 0, each followed or not by a `baseline --write` of what it
      measured, no ceiling rises and no entry is lost. */
  lemma {:induction false} CommandsNeverRaise(file: Stored, run: seq<Event>)
    requires Orderly(file, run)
    ensures Tighter(LoadBaseline(FileAfter(file, run)), LoadBaseline(file))
    decreases |run|
  {
    if run != [] {
      CommandsNeverRaise(file, run[..|run| - 1]);
      OrderlyStep(file, run);
      TighterStill(LoadBaseline(file), LoadBaseline(FileAfter(file, run[..|run| - 1])),
                   LoadBaseline(FileAfter(file, run)));
    }
  }

  /** An entry that no invocation of the run measures keeps its value. */
  lemma {:induction false} UnmeasuredKept(file: Stored, run: seq<Invocation>, key: string)
    requires Passing(file, run) && key in LoadBaseline(file)
    requires forall i :: i in run ==> key !in MetricsOf(i.results)
    ensures key in LoadBaseline(After(file, run)) && LoadBaseline(After(file, run))[key] == LoadBaseline(file)[key]
    decreases |run|
  {
    if run != [] {
      UnmeasuredKept(file, run[..|run| - 1], key);
      PassingStep(After(file, run[..|run| - 1]), run[|run| - 1]);
    }
  }

  /** Once a passing run has captured a metric, every later passing run measures at most that
      value. */
  lemma CapturedBound(file: Stored, first: Invocation, run: seq<Invocation>, last: Invocation, key: string)
    requires HookExit(file, first) == EXIT_OK && first.write && key in MetricsOf(first.results)
    requires Passing(HookFile(file, first), run)
    requires HookExit(After(HookFile(file, first), run), last) == EXIT_OK && key in MetricsOf(last.results)
    ensures MetricsOf(last.results)[key] <= MetricsOf(first.results)[key]
  {
    PassExact(file, first);
    CaptureMerges(file, MetricsOf(first.results), key);
    CeilingsNeverRise(HookFile(file, first), run);
    var later := After(HookFile(file, first), run);
    PassExact(later, last);
    MeasuredWithin(last.results, LoadBaseline(later), key);
  }
}
