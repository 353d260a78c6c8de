/** The structural layer of the entropy gate and its baseline: what a check's outcome counts
    as, what the run reports, and how a capture merges into the stored ceilings. */
module Ratchet {
  import opened Ordering

  /** `scope` is "repo" unless the configuration says otherwise; `counts` holds when the check
      declares a count pattern. */
  datatype Check = Check(lang: string, name: string, scope: string, required: bool, counts: bool, usesFiles: bool,
                         findingsExit: set<int>)

  /** One finished process: its exit code, whether its output matches the check's error
      pattern, and how many findings its standard output counts. */
  datatype Process = Process(rc: int, errorMatch: bool, counted: nat)

  /** A check's command is missing, or its directory or config file is, or it ran: once, or
      once per chunk of files. */
  datatype Attempt = NotInstalled | NotConfigured | Ran(processes: seq<Process>)

  /** `skipped` when the check left a tooling message instead of a verdict. */
  datatype Result = Result(check: Check, ok: bool, metric: Option<nat>, rc: int, skipped: bool, fatal: bool)

  datatype Finding = Finding(lang: string, key: string, blocking: bool)

  datatype Trouble = BrokenCheck(key: string) | Unevaluated(lang: string) | LayerError(message: string) | RefusedCapture

  // ----- One check ------------------------------------------------------------------------

  /** `crash_suspect`. */
  predicate CrashSuspect(rc: int, findingsExit: set<int>) {
    if rc == 0 || rc == 1 then false
    else if rc < 0 then true
    else rc !in findingsExit
  }

  function Fatal(c: Check, rc: int): Result {
    Result(c, false, None, rc, true, true)
  }

  function Metric(c: Check, counted: nat): Option<nat> {
    if c.counts then Some(counted) else None
  }

  function Max(a: int, b: int): int {
    if a < b then b else a
  }

  function Worst(processes: seq<Process>): int {
    if processes == [] then 0 else Max(Worst(processes[..|processes| - 1]), processes[|processes| - 1].rc)
  }

  function Total(processes: seq<Process>): nat {
    if processes == [] then 0 else Total(processes[..|processes| - 1]) + processes[|processes| - 1].counted
  }

  predicate Died(c: Check, p: Process) {
    CrashSuspect(p.rc, c.findingsExit)
  }

  /** What a chunked check comes to. */
  ghost predicate Chunked(c: Check, processes: seq<Process>, r: Result) {
    if exists p :: p in processes && Died(c, p) then
      exists p :: p in processes && Died(c, p) && r == Fatal(c, p.rc)
    else if exists p :: p in processes && p.errorMatch then
      r == Result(c, true, None, Worst(processes), true, false)
    else
      r == Result(c, if c.counts then Total(processes) == 0 else Worst(processes) == 0,
                  Metric(c, Total(processes)), Worst(processes), false, false)
  }

  lemma {:induction false} WorstIsVerdict(c: Check, processes: seq<Process>)
    requires forall p :: p in processes ==> !Died(c, p)
    ensures !CrashSuspect(Worst(processes), c.findingsExit)
  {
    if processes != [] {
      var last := processes[|processes| - 1];
      assert !Died(c, last);
      WorstIsVerdict(c, processes[..|processes| - 1]);
    }
  }

  /** The loop over the chunks of a file-scoped check. A later chunk never erases a death. */
  method RunChunks(c: Check, processes: seq<Process>) returns (r: Result)
    ensures Chunked(c, processes, r)
  {
    var worst, killed, matched, total: nat := 0, false, false, 0;
    for i := 0 to |processes|
      invariant forall p :: p in processes[..i] ==> !Died(c, p)
      invariant !killed
      invariant worst == Worst(processes[..i]) && total == Total(processes[..i])
      invariant matched <==> exists p :: p in processes[..i] && p.errorMatch
    {
      var p := processes[i];
      assert processes[..i + 1] == processes[..i] + [p];
      assert processes[..i + 1][..i] == processes[..i];
      killed := killed || p.rc < 0;
      worst := Max(worst, p.rc);
      if p.rc < 0 || CrashSuspect(p.rc, c.findingsExit) {
        assert p in processes && Died(c, p);
        return Fatal(c, p.rc);
      }
      if p.errorMatch {
        matched := true;
      }
      total := total + p.counted;
    }
    assert processes[..|processes|] == processes;
    WorstIsVerdict(c, processes);
    if killed || CrashSuspect(worst, c.findingsExit) {
      assert false;
    }
    if matched {
      return Result(c, true, None, worst, true, false);
    }
    return Result(c, if c.counts then total == 0 else worst == 0, Metric(c, total), worst, false, false);
  }

  function Single(c: Check, p: Process): Result {
    if Died(c, p) then Fatal(c, p.rc)
    else if p.errorMatch then Result(c, true, None, p.rc, true, false)
    else Result(c, p.rc == 0, Metric(c, p.counted), p.rc, false, false)
  }

  /** What a check's attempt comes to. */
  ghost predicate Concludes(c: Check, a: Attempt, r: Result) {
    match a
    case NotInstalled => r == Result(c, false, None, 127, true, false)
    case NotConfigured => r == Result(c, false, None, 0, true, false)
    case Ran(processes) =>
      if c.scope == "file" && c.usesFiles then Chunked(c, processes, r)
      else processes != [] && r == Single(c, processes[0])
  }

  /** The judging half of `execute_check`. */
  method Conclude(c: Check, a: Attempt) returns (r: Result)
    requires a.Ran? && !(c.scope == "file" && c.usesFiles) ==> a.processes != []
    ensures Concludes(c, a, r)
  {
    match a
    case NotInstalled => return Result(c, false, None, 127, true, false);
    case NotConfigured => return Result(c, false, None, 0, true, false);
    case Ran(processes) =>
      if c.scope == "file" && c.usesFiles {
        r := RunChunks(c, processes);
        return;
      }
      var p := processes[0];
      if p.rc < 0 || CrashSuspect(p.rc, c.findingsExit) {
        return Fatal(c, p.rc);
      }
      if p.errorMatch {
        return Result(c, true, None, p.rc, true, false);
      }
      return Result(c, p.rc == 0, Metric(c, p.counted), p.rc, false, false);
  }

  // ----- What a result counts as ---------------------------------------------------------------

  function Key(c: Check): string {
    c.lang + ("/" + c.name)
  }

  /** The stored ceiling of a metric, an absent one reading as 0. */
  function Ceiling(baseline: map<string, int>, key: string): int {
    if key in baseline then baseline[key] else 0
  }

  /** The gate could not do its job: a crash, a required tool that is missing, a count that
      matched nothing on a failing exit, or an uncounted exit above 1. */
  predicate Broken(r: Result) {
    || (r.skipped && (r.fatal || (r.rc == 127 && r.check.required)))
    || (!r.skipped && r.metric == Some(0) && r.rc != 0)
    || (!r.skipped && r.metric == None && r.rc > 1)
  }

  /** The check produced a real result. */
  predicate Evaluated(r: Result) {
    !r.skipped && !Broken(r)
  }

  /** The check measured a metric of the whole repository. */
  predicate Measured(r: Result) {
    Evaluated(r) && r.metric.Some? && r.check.scope != "file"
  }

  predicate Violates(r: Result, baseline: map<string, int>) {
    && Evaluated(r)
    && match r.metric
       case None => !r.ok
       case Some(m) => if r.check.scope == "file" then m > 0 else m > Ceiling(baseline, Key(r.check))
  }

  function FindingsOf(results: seq<Result>, baseline: map<string, int>): seq<Finding> {
    if results == [] then []
    else
      var r := results[|results| - 1];
      FindingsOf(results[..|results| - 1], baseline)
        + if Violates(r, baseline) then [Finding(r.check.lang, Key(r.check), true)] else []
  }

  function MetricsOf(results: seq<Result>): map<string, nat> {
    if results == [] then map[]
    else
      var r, rest := results[|results| - 1], MetricsOf(results[..|results| - 1]);
      if Measured(r) then rest[Key(r.check) := r.metric.value] else rest
  }

  function BrokenOf(results: seq<Result>): seq<Trouble> {
    if results == [] then []
    else
      var r := results[|results| - 1];
      BrokenOf(results[..|results| - 1]) + if Broken(r) then [BrokenCheck(Key(r.check))] else []
  }

  ghost predicate LangRan(results: seq<Result>, lang: string) {
    exists r :: r in results && r.check.lang == lang && Evaluated(r)
  }

  ghost function UnevaluatedOf(langs: seq<string>, results: seq<Result>): seq<Trouble> {
    if langs == [] then []
    else
      var lang := langs[|langs| - 1];
      UnevaluatedOf(langs[..|langs| - 1], results) + if LangRan(results, lang) then [] else [Unevaluated(lang)]
  }

  ghost predicate RanCounts(ran: map<string, nat>, results: seq<Result>) {
    forall lang :: (lang in ran && ran[lang] > 0) <==> LangRan(results, lang)
  }

  method BumpRan(ran: map<string, nat>, ghost before: seq<Result>, r: Result) returns (after: map<string, nat>)
    requires RanCounts(ran, before) && Evaluated(r)
    ensures RanCounts(after, before + [r])
  {
    var lang := r.check.lang;
    after := ran[lang := (if lang in ran then ran[lang] else 0) + 1];
    forall l ensures LangRan(before + [r], l) <==> LangRan(before, l) || l == lang { LangPush(before, r, l); }
  }

  lemma LangPush(before: seq<Result>, r: Result, lang: string)
    ensures LangRan(before + [r], lang) <==> LangRan(before, lang) || (Evaluated(r) && r.check.lang == lang)
  {
    assert forall s :: s in before + [r] <==> s in before || s == r;
  }

  lemma RanUnchanged(ran: map<string, nat>, before: seq<Result>, r: Result)
    requires RanCounts(ran, before) && !Evaluated(r)
    ensures RanCounts(ran, before + [r])
  {
    forall l ensures LangRan(before + [r], l) <==> LangRan(before, l) { LangPush(before, r, l); }
  }

  /** The judging loop of `run_structural` over the results of the scheduled checks. */
  method JudgeResults(results: seq<Result>, baseline: map<string, int>)
    returns (findings: seq<Finding>, metrics: map<string, nat>, tooling: seq<Trouble>, ran: map<string, nat>)
    ensures findings == FindingsOf(results, baseline) && metrics == MetricsOf(results)
    ensures tooling == BrokenOf(results) && RanCounts(ran, results)
  {
    findings, metrics, tooling, ran := [], map[], [], map[];
    for i := 0 to |results|
      invariant findings == FindingsOf(results[..i], baseline)
      invariant metrics == MetricsOf(results[..i])
      invariant tooling == BrokenOf(results[..i])
      invariant RanCounts(ran, results[..i])
    {
      var r := results[i];
      assert results[..i + 1][..i] == results[..i];
      assert results[..i + 1] == results[..i] + [r];
      if r.skipped {
        RanUnchanged(ran, results[..i], r);
        if r.fatal {
          tooling := tooling + [BrokenCheck(Key(r.check))];
        } else if r.rc == 127 && r.check.required {
          tooling := tooling + [BrokenCheck(Key(r.check))];
        }
        continue;
      }
      if r.metric.Some? {
        if r.rc != 0 && r.metric.value == 0 {
          RanUnchanged(ran, results[..i], r);
          tooling := tooling + [BrokenCheck(Key(r.check))];
          continue;
        }
      } else if r.rc > 1 {
        RanUnchanged(ran, results[..i], r);
        tooling := tooling + [BrokenCheck(Key(r.check))];
        continue;
      }
      ran := BumpRan(ran, results[..i], r);
      var found := JudgeEvaluated(r, baseline);
      if found {
        findings := findings + [Finding(r.check.lang, Key(r.check), true)];
      }
      if r.metric.Some? && r.check.scope != "file" {
        metrics := metrics[Key(r.check) := r.metric.value];
      }
    }
    assert results[..|results|] == results;
  }

  /** The comparison of one real result: file-scoped counts are violations outright, repo
      metrics are held to their ceiling. */
  method JudgeEvaluated(r: Result, baseline: map<string, int>) returns (found: bool)
    requires Evaluated(r)
    ensures found <==> Violates(r, baseline)
  {
    if r.metric.Some? && r.check.scope == "file" {
      return r.metric.value > 0;
    }
    if r.metric.Some? {
      if Key(r.check) !in baseline {
        return r.metric.value > 0;
      }
      return r.metric.value > baseline[Key(r.check)];
    }
    return !r.ok;
  }

  /** `run_structural` from the results on: `langs` are the staged languages. */
  method RunStructural(langs: set<string>, results: seq<Result>, baseline: map<string, int>)
    returns (findings: seq<Finding>, metrics: map<string, nat>, tooling: seq<Trouble>)
    ensures findings == FindingsOf(results, baseline) && metrics == MetricsOf(results)
    ensures tooling == BrokenOf(results) + UnevaluatedOf(SetKeys(langs), results)
  {
    var ran: map<string, nat>;
    findings, metrics, tooling, ran := JudgeResults(results, baseline);
    var sorted := SortedKeys(langs);
    ghost var broken := tooling;
    for i := 0 to |sorted|
      invariant tooling == broken + UnevaluatedOf(sorted[..i], results)
    {
      var lang := sorted[i];
      assert sorted[..i + 1][..i] == sorted[..i];
      assert (lang in ran && ran[lang] > 0) <==> LangRan(results, lang);
      if lang in ran && ran[lang] > 0 {
        continue;
      }
      AppendAssociative(broken, UnevaluatedOf(sorted[..i], results), [Unevaluated(lang)]);
      tooling := tooling + [Unevaluated(lang)];
    }
    assert sorted[..|sorted|] == sorted;
  }

  // ----- The exit code ----------------------------------------------------------------------------

  const EXIT_OK := 0
  const EXIT_VIOLATION := 1
  const EXIT_CONFIG := 2

  ghost function ExitCode(findings: seq<Finding>, tooling: seq<Trouble>): int {
    if tooling != [] then EXIT_CONFIG
    else if exists f :: f in findings && f.blocking then EXIT_VIOLATION
    else EXIT_OK
  }

  method Report(findings: seq<Finding>, tooling: seq<Trouble>) returns (rc: int)
    ensures rc == ExitCode(findings, tooling)
  {
    var blocking: seq<Finding> := [];
    for i := 0 to |findings|
      invariant blocking == [] <==> forall f :: f in findings[..i] ==> !f.blocking
    {
      assert findings[..i + 1] == findings[..i] + [findings[i]];
      if findings[i].blocking {
        blocking := blocking + [findings[i]];
      }
    }
    assert findings[..|findings|] == findings;
    if blocking == [] {
      if tooling != [] {
        return EXIT_CONFIG;
      }
      return EXIT_OK;
    }
    return if tooling != [] then EXIT_CONFIG else EXIT_VIOLATION;
  }

  // ----- The baseline file ---------------------------------------------------------------------------

  datatype StoredMetric = Count(n: int) | NotInteger

  datatype Stored = Absent | Unusable | Metrics(entries: map<string, StoredMetric>)

  /** `load_baseline`: an unusable file or entry is dropped. */
  function LoadBaseline(file: Stored): map<string, int> {
    match file
    case Absent => map[]
    case Unusable => map[]
    case Metrics(entries) => map k | k in entries && entries[k].Count? :: entries[k].n
  }

  /** `write_baseline`: a capture merges into the file, it does not replace it. */
  function WriteBaseline(file: Stored, metrics: map<string, nat>): Stored {
    var loaded := LoadBaseline(file);
    Metrics(map k | k in loaded.Keys + metrics.Keys :: Count(if k in metrics then metrics[k] else loaded[k]))
  }

  // ----- The hook ----------------------------------------------------------------------------------------

  /** One invocation of the hook: the staged languages, the results of their checks, what the
      other layer found, and the flags. */
  datatype Invocation = Invocation(langs: set<string>, results: seq<Result>, otherFindings: seq<Finding>,
                                   otherTooling: seq<Trouble>, write: bool, force: bool)

  ghost function ToolingOf(i: Invocation): seq<Trouble> {
    i.otherTooling + (BrokenOf(i.results) + UnevaluatedOf(SetKeys(i.langs), i.results))
  }

  /** A capture is refused while a check cannot run, or when nothing was measured, unless
      forced. */
  ghost predicate Refused(i: Invocation) {
    i.write && !i.force && (ToolingOf(i) != [] || MetricsOf(i.results) == map[])
  }

  ghost function HookExit(file: Stored, i: Invocation): int {
    if Refused(i) then EXIT_CONFIG
    else ExitCode(i.otherFindings + FindingsOf(i.results, LoadBaseline(file)), ToolingOf(i))
  }

  ghost function HookFile(file: Stored, i: Invocation): Stored {
    if i.write && !Refused(i) then WriteBaseline(file, MetricsOf(i.results)) else file
  }

  /** The two layers and the capture of `cmd_hook`. */
  method Hook(file: Stored, i: Invocation) returns (rc: int, after: Stored)
    ensures rc == HookExit(file, i) && after == HookFile(file, i)
  {
    var baseline := LoadBaseline(file);
    var findings, metrics, tooling := RunStructural(i.langs, i.results, baseline);
    findings := i.otherFindings + findings;
    tooling := i.otherTooling + tooling;
    var refused := false;
    if i.write {
      if tooling != [] && !i.force {
        refused := true;
      } else if metrics == map[] && !i.force {
        refused := true;
      }
    }
    if refused {
      tooling := tooling + [RefusedCapture];
    }
    rc := Report(findings, tooling);
    after := file;
    if i.write && !refused {
      after := WriteBaseline(file, metrics);
    }
    if refused {
      rc := EXIT_CONFIG;
    }
  }

  /** What the hook looks at before its layers run: the skip variable, the staged files, how many
      of them differ from the worktree (none when git cannot tell), the files of an unconfigured
      language, the ones gone from the worktree, and whether the other layer's tool is there. */
  datatype Staging = Staging(skip: bool, files: nat, allowDivergence: bool, diverging: Option<nat>, unknown: nat,
                             failOnUnknown: bool, missing: nat, required: bool, installed: bool)

  /** There is nothing to check, or the operator said not to. */
  predicate Bypassed(g: Staging) {
    g.skip || g.files == 0
  }

  /** The content to be committed cannot be checked. */
  predicate Unreadable(g: Staging) {
    || (!g.allowDivergence && g.diverging != Some(0))
    || (g.unknown > 0 && g.failOnUnknown)
    || g.missing > 0
    || (g.required && !g.installed)
  }

  ghost function CommandExit(file: Stored, g: Staging, i: Invocation): int {
    if Bypassed(g) then EXIT_OK else if Unreadable(g) then EXIT_CONFIG else HookExit(file, i)
  }

  ghost function CommandFile(file: Stored, g: Staging, i: Invocation): Stored {
    if Bypassed(g) || Unreadable(g) then file else HookFile(file, i)
  }

  /** `cmd_hook`. */
  method Command(file: Stored, g: Staging, i: Invocation) returns (rc: int, after: Stored)
    ensures rc == CommandExit(file, g, i) && after == CommandFile(file, g, i)
  {
    if g.skip {
      return EXIT_OK, file;
    }
    if g.files == 0 {
      return EXIT_OK, file;
    }
    if !g.allowDivergence {
      if g.diverging.None? {
        return EXIT_CONFIG, file;
      }
      if g.diverging.value > 0 {
        return EXIT_CONFIG, file;
      }
    }
    if g.unknown > 0 && g.failOnUnknown {
      return EXIT_CONFIG, file;
    }
    if g.missing > 0 {
      return EXIT_CONFIG, file;
    }
    if g.required && !g.installed {
      return EXIT_CONFIG, file;
    }
    rc, after := Hook(file, i);
  }

  // ----- The baseline command -----------------------------------------------------------------------------

  /** One invocation of `baseline`: the same results, measured against no baseline at all. */
  datatype Capture = Capture(langs: set<string>, unknown: bool, results: seq<Result>, write: bool, force: bool)

  ghost function CaptureTooling(c: Capture): seq<Trouble> {
    BrokenOf(c.results) + UnevaluatedOf(SetKeys(c.langs), c.results)
  }

  /** Nothing to measure, an unconfigured language, or a write that would record what was not
      measured. */
  ghost predicate CaptureRefused(c: Capture) {
    c.unknown || c.langs == {} || (c.write && !c.force && (CaptureTooling(c) != [] || MetricsOf(c.results) == map[]))
  }

  ghost function CaptureFile(file: Stored, c: Capture): Stored {
    if c.write && !CaptureRefused(c) then WriteBaseline(file, MetricsOf(c.results)) else file
  }

  /** `cmd_baseline`. */
  method Baseline(file: Stored, c: Capture) returns (rc: int, after: Stored)
    ensures rc == if CaptureRefused(c) then EXIT_CONFIG else EXIT_OK
    ensures after == CaptureFile(file, c)
  {
    if c.unknown {
      return EXIT_CONFIG, file;
    }
    if c.langs == {} {
      return EXIT_CONFIG, file;
    }
    var findings, metrics, tooling := RunStructural(c.langs, c.results, map[]);
    if c.write {
      if tooling != [] && !c.force {
        return EXIT_CONFIG, file;
      }
      if metrics == map[] && !c.force {
        return EXIT_CONFIG, file;
      }
      return EXIT_OK, WriteBaseline(file, metrics);
    }
    return EXIT_OK, file;
  }
}
