/** The hook's exit code and the file it leaves, said of the exit codes and counts of the
    processes that ran. */
module RatchetMeaning {
  import opened Ordering
  import opened Ratchet
  import opened RatchetTheorems

  // ----- What a check comes to ----------------------------------------------------------------

  /** A signal killed the process, or it exited above 1 with a code the check does not declare. */
  predicate Dead(rc: int, declared: set<int>) {
    rc < 0 || (rc > 1 && rc !in declared)
  }

  /** The processes a check is judged by: every chunk of a file-scoped one, otherwise the first. */
  function Judged(j: Job): seq<Process> {
    if !j.attempt.Ran? || j.attempt.processes == [] then []
    else if j.check.scope == "file" && j.check.usesFiles then j.attempt.processes
    else [j.attempt.processes[0]]
  }

  ghost predicate SomeDead(j: Job) {
    exists p :: p in Judged(j) && Dead(p.rc, j.check.findingsExit)
  }

  ghost predicate SomeError(j: Job) {
    exists p :: p in Judged(j) && p.errorMatch
  }

  /** It failed and has nothing to show for it: no finding counted, or no count and a code above 1. */
  ghost predicate Vacant(j: Job) {
    if j.check.counts then
      (forall p :: p in Judged(j) ==> p.counted == 0) && exists p :: p in Judged(j) && p.rc != 0
    else exists p :: p in Judged(j) && p.rc > 1
  }

  /** The check did its job. */
  ghost predicate Works(j: Job) {
    j.attempt.Ran? && !SomeDead(j) && !SomeError(j) && !Vacant(j)
  }

  /** No process exited higher than with the shell's code for a missing command. */
  ghost predicate LooksMissing(j: Job) {
    (exists p :: p in Judged(j) && p.rc == 127) && forall p :: p in Judged(j) ==> p.rc <= 127
  }

  /** The check stops the run: it is required and not installed, or exits as if it were; it died; or
      it failed vacantly. */
  ghost predicate Refuses(j: Job) {
    || (j.attempt.NotInstalled? && j.check.required)
    || SomeDead(j)
    || (SomeError(j) && LooksMissing(j) && j.check.required)
    || (j.attempt.Ran? && !SomeError(j) && Vacant(j))
  }

  function Tally(processes: seq<Process>): nat {
    if processes == [] then 0 else processes[0].counted + Tally(processes[1..])
  }

  function StoredAt(file: Stored, key: string): Option<int> {
    if file.Metrics? && key in file.entries && file.entries[key].Count? then Some(file.entries[key].n) else None
  }

  function Limit(file: Stored, key: string): int {
    if StoredAt(file, key).Some? then StoredAt(file, key).value else 0
  }

  function Name(c: Check): string {
    c.lang + "/" + c.name
  }

  /** What the check found is in order: nothing in the staged files, no more than recorded in the
      repository, or clean exits. */
  ghost predicate InOrder(j: Job, file: Stored) {
    if !j.check.counts then forall p :: p in Judged(j) ==> p.rc == 0
    else if j.check.scope == "file" then forall p :: p in Judged(j) ==> p.counted == 0
    else Tally(Judged(j)) <= Limit(file, Name(j.check))
  }

  ghost predicate Measuring(j: Job, key: string) {
    Works(j) && j.check.counts && j.check.scope != "file" && Name(j.check) == key
  }

  // ----- Each result says so ---------------------------------------------------------------------

  lemma DeadExact(c: Check, p: Process)
    ensures Died(c, p) <==> Dead(p.rc, c.findingsExit)
  {
  }

  lemma {:induction false} TallyPush(s: seq<Process>, p: Process)
    ensures Tally(s + [p]) == Tally(s) + p.counted
  {
    if s == [] {
      assert [p][1..] == [];
    } else {
      TailAppend(s, [p]);
      TallyPush(s[1..], p);
    }
  }

  lemma {:induction false} TallyTotal(s: seq<Process>)
    ensures Total(s) == Tally(s)
    ensures Total(s) == 0 <==> forall p :: p in s ==> p.counted == 0
  {
    if s != [] {
      SplitLast(s);
      TallyTotal(s[..|s| - 1]);
      TallyPush(s[..|s| - 1], s[|s| - 1]);
    }
  }

  lemma {:induction false} WorstExact(s: seq<Process>)
    requires forall p :: p in s ==> p.rc >= 0
    ensures Worst(s) >= 0
    ensures Worst(s) == 0 <==> forall p :: p in s ==> p.rc == 0
    ensures Worst(s) > 1 <==> exists p :: p in s && p.rc > 1
  {
    if s != [] {
      SplitLast(s);
      assert s[|s| - 1] in s;
      WorstExact(s[..|s| - 1]);
    }
  }

  /** A result is one of a job that was judged whole. */
  ghost predicate Comes(j: Job, r: Result) {
    Concludes(j.check, j.attempt, r)
  }

  lemma DeathsExact(j: Job)
    ensures SomeDead(j) <==> exists p :: p in Judged(j) && Died(j.check, p)
  {
    forall p: Process ensures Died(j.check, p) <==> Dead(p.rc, j.check.findingsExit) { DeadExact(j.check, p); }
  }

  lemma LivingCodes(j: Job)
    requires !SomeDead(j)
    ensures forall p :: p in Judged(j) ==> p.rc >= 0
  {
    forall p | p in Judged(j) ensures p.rc >= 0 { assert !Dead(p.rc, j.check.findingsExit); }
  }

  lemma OneProcess(p: Process)
    ensures Total([p]) == p.counted && (p.rc >= 0 ==> Worst([p]) == p.rc)
  {
    assert [p][..0] == [];
    assert Total([]) == 0 && Worst([]) == 0;
  }

  /** The result of a job that ran and in which nothing died or matched the error pattern. */
  lemma LivingResult(j: Job, r: Result)
    requires Comes(j, r) && j.attempt.Ran? && !SomeDead(j) && !SomeError(j)
    ensures !r.skipped && r.check == j.check && r.rc == Worst(Judged(j))
    ensures r.metric == Metric(j.check, Total(Judged(j)))
    ensures r.metric.None? ==> (r.ok <==> Worst(Judged(j)) == 0)
  {
    DeathsExact(j);
    LivingCodes(j);
    var judged := Judged(j);
    if !(j.check.scope == "file" && j.check.usesFiles) {
      assert judged == [j.attempt.processes[0]];
      assert judged[0] in judged;
      OneProcess(judged[0]);
    }
  }

  lemma DeadResult(j: Job, r: Result)
    requires Comes(j, r) && SomeDead(j)
    ensures r.skipped && r.fatal && r.check == j.check
  {
    DeathsExact(j);
  }

  lemma ErrorResult(j: Job, r: Result)
    requires Comes(j, r) && !SomeDead(j) && SomeError(j)
    ensures r.skipped && !r.fatal && r.check == j.check && r.rc == Worst(Judged(j))
  {
    DeathsExact(j);
    LivingCodes(j);
    var judged := Judged(j);
    if !(j.check.scope == "file" && j.check.usesFiles) {
      assert judged == [j.attempt.processes[0]];
      assert judged[0] in judged;
      OneProcess(judged[0]);
    }
  }

  lemma IdleResult(j: Job, r: Result)
    requires Comes(j, r) && !j.attempt.Ran?
    ensures r.skipped && !r.fatal && r.check == j.check && (r.rc == 127 <==> j.attempt.NotInstalled?)
    ensures Judged(j) == []
  {
  }

  lemma VacantExact(j: Job)
    requires !SomeDead(j)
    ensures Vacant(j) <==>
            if j.check.counts then Total(Judged(j)) == 0 && Worst(Judged(j)) != 0 else Worst(Judged(j)) > 1
  {
    LivingCodes(j);
    WorstExact(Judged(j));
    TallyTotal(Judged(j));
  }

  /** A result is broken exactly when its job refuses, and real exactly when the job works. */
  lemma ResultMeans(j: Job, r: Result)
    requires Comes(j, r)
    ensures Broken(r) <==> Refuses(j)
    ensures Evaluated(r) <==> Works(j)
    ensures r.check == j.check && (Works(j) ==> r.metric == Metric(j.check, Tally(Judged(j))))
  {
    if !j.attempt.Ran? {
      IdleResult(j, r);
    } else if SomeDead(j) {
      DeadResult(j, r);
    } else if SomeError(j) {
      ErrorResult(j, r);
      LivingCodes(j);
      WorstReached(Judged(j), 127);
    } else {
      LivingResult(j, r);
      VacantExact(j);
      TallyTotal(Judged(j));
    }
  }

  lemma {:induction false} WorstReached(s: seq<Process>, n: int)
    requires n > 0 && forall p :: p in s ==> p.rc >= 0
    ensures Worst(s) == n <==> (exists p :: p in s && p.rc == n) && forall p :: p in s ==> p.rc <= n
    ensures Worst(s) <= n <==> forall p :: p in s ==> p.rc <= n
  {
    if s != [] {
      SplitLast(s);
      assert s[|s| - 1] in s;
      WorstReached(s[..|s| - 1], n);
    }
  }

  lemma LimitExact(file: Stored, key: string)
    ensures key in LoadBaseline(file) <==> StoredAt(file, key).Some?
    ensures key in LoadBaseline(file) ==> StoredAt(file, key) == Some(LoadBaseline(file)[key])
    ensures Ceiling(LoadBaseline(file), key) == Limit(file, key)
  {
  }

  lemma NameExact(c: Check)
    ensures Key(c) == Name(c)
  {
    assert c.lang + ("/" + c.name) == c.lang + "/" + c.name;
  }

  lemma OrderMeans(j: Job, r: Result, file: Stored)
    requires Comes(j, r)
    ensures Violates(r, LoadBaseline(file)) <==> Works(j) && !InOrder(j, file)
  {
    ResultMeans(j, r);
    if Works(j) {
      LivingResult(j, r);
      LivingCodes(j);
      WorstExact(Judged(j));
      TallyTotal(Judged(j));
      NameExact(j.check);
      LimitExact(file, Key(j.check));
    }
  }

  // ----- The exit code of the hook --------------------------------------------------------------------

  ghost predicate LangWorks(jobs: seq<Job>, lang: string) {
    exists j :: j in jobs && j.check.lang == lang && Works(j)
  }

  ghost predicate Measures(jobs: seq<Job>) {
    exists j, key :: j in jobs && Measuring(j, key)
  }

  /** The structural layer cannot say: a check refuses, or nothing worked for a staged language. */
  ghost predicate Stuck(langs: set<string>, jobs: seq<Job>) {
    (exists j :: j in jobs && Refuses(j)) || exists lang :: lang in langs && !LangWorks(jobs, lang)
  }

  lemma BrokenMeans(jobs: seq<Job>, results: seq<Result>)
    requires ResultsOf(jobs, results)
    ensures BrokenOf(results) == [] <==> forall j :: j in jobs ==> !Refuses(j)
  {
    NoneBroken(results);
    forall k | 0 <= k < |jobs| ensures Broken(results[k]) <==> Refuses(jobs[k]) { ResultMeans(jobs[k], results[k]); }
    if forall r :: r in results ==> !Broken(r) {
      forall j | j in jobs ensures !Refuses(j) {
        var k :| 0 <= k < |jobs| && jobs[k] == j;
        assert results[k] in results;
      }
    }
    if forall j :: j in jobs ==> !Refuses(j) {
      forall r | r in results ensures !Broken(r) {
        var k :| 0 <= k < |jobs| && results[k] == r;
        assert jobs[k] in jobs;
      }
    }
  }

  lemma LangMeans(jobs: seq<Job>, results: seq<Result>, lang: string)
    requires ResultsOf(jobs, results)
    ensures LangRan(results, lang) <==> LangWorks(jobs, lang)
  {
    forall k | 0 <= k < |jobs|
      ensures results[k].check == jobs[k].check && (Evaluated(results[k]) <==> Works(jobs[k]))
    {
      ResultMeans(jobs[k], results[k]);
    }
    if r :| r in results && r.check.lang == lang && Evaluated(r) {
      var k :| 0 <= k < |jobs| && results[k] == r;
      assert jobs[k] in jobs;
    }
    if j :| j in jobs && j.check.lang == lang && Works(j) {
      var k :| 0 <= k < |jobs| && jobs[k] == j;
      assert results[k] in results;
    }
  }

  lemma FindingsMean(jobs: seq<Job>, results: seq<Result>, file: Stored)
    requires ResultsOf(jobs, results)
    ensures FindingsOf(results, LoadBaseline(file)) == [] <==>
            forall j :: j in jobs && Works(j) ==> InOrder(j, file)
  {
    var baseline := LoadBaseline(file);
    NoFindings(results, baseline);
    forall k | 0 <= k < |jobs|
      ensures Violates(results[k], baseline) <==> Works(jobs[k]) && !InOrder(jobs[k], file)
    {
      OrderMeans(jobs[k], results[k], file);
    }
    if forall r :: r in results ==> !Violates(r, baseline) {
      forall j | j in jobs && Works(j) ensures InOrder(j, file) {
        var k :| 0 <= k < |jobs| && jobs[k] == j;
        assert results[k] in results;
      }
    }
    if forall j :: j in jobs && Works(j) ==> InOrder(j, file) {
      forall r | r in results ensures !Violates(r, baseline) {
        var k :| 0 <= k < |jobs| && results[k] == r;
        assert jobs[k] in jobs;
      }
    }
  }

  /** The last job that measures a metric says what it is. */
  ghost predicate LastMeasuring(jobs: seq<Job>, k: nat, key: string) {
    && k < |jobs| && Measuring(jobs[k], key)
    && forall m :: k < m < |jobs| ==> !Measuring(jobs[m], key)
  }

  lemma MeasuringMeans(j: Job, r: Result, key: string)
    requires Comes(j, r)
    ensures Measured(r) && Key(r.check) == key <==> Measuring(j, key)
    ensures Measuring(j, key) ==> r.metric == Some(Tally(Judged(j)))
  {
    ResultMeans(j, r);
    NameExact(j.check);
  }

  lemma {:induction false} MetricsMean(jobs: seq<Job>, results: seq<Result>, key: string)
    requires ResultsOf(jobs, results)
    ensures key in MetricsOf(results) <==> exists k: nat :: LastMeasuring(jobs, k, key)
    ensures forall k: nat :: LastMeasuring(jobs, k, key) ==>
              key in MetricsOf(results) && MetricsOf(results)[key] == Tally(Judged(jobs[k]))
    decreases |jobs|
  {
    if jobs != [] {
      var n := |jobs| - 1;
      var init := jobs[..n];
      MetricsMean(init, results[..n], key);
      MeasuringMeans(jobs[n], results[n], key);
      if Measuring(jobs[n], key) {
        assert LastMeasuring(jobs, n, key);
      } else {
        forall k: nat ensures LastMeasuring(jobs, k, key) <==> LastMeasuring(init, k, key) {
          LastOfInit(jobs, k, key);
        }
      }
    }
  }

  lemma LastOfInit(jobs: seq<Job>, k: nat, key: string)
    requires jobs != [] && !Measuring(jobs[|jobs| - 1], key)
    ensures LastMeasuring(jobs, k, key) <==> LastMeasuring(jobs[..|jobs| - 1], k, key)
  {
    var init := jobs[..|jobs| - 1];
    if LastMeasuring(jobs, k, key) {
      forall m | k < m < |init| ensures !Measuring(init[m], key) { assert init[m] == jobs[m]; }
    }
    if LastMeasuring(init, k, key) {
      forall m | k < m < |jobs| ensures !Measuring(jobs[m], key) {
        assert m < |init| ==> init[m] == jobs[m];
      }
    }
  }

  lemma NoneMeasured(jobs: seq<Job>, results: seq<Result>)
    requires ResultsOf(jobs, results)
    ensures MetricsOf(results) == map[] <==> !Measures(jobs)
  {
    forall key
      ensures key in MetricsOf(results) <==> exists k: nat :: LastMeasuring(jobs, k, key)
    {
      MetricsMean(jobs, results, key);
    }
    if Measures(jobs) {
      var j, key :| j in jobs && Measuring(j, key);
      var k := LastMeasurer(jobs, j, key);
      assert key in MetricsOf(results);
    }
    if MetricsOf(results) != map[] {
      var key :| key in MetricsOf(results);
      var k: nat :| LastMeasuring(jobs, k, key);
      assert jobs[k] in jobs;
    }
  }

  lemma {:induction false} LastMeasurer(jobs: seq<Job>, j: Job, key: string) returns (k: nat)
    requires j in jobs && Measuring(j, key)
    ensures LastMeasuring(jobs, k, key)
    decreases |jobs|
  {
    var n := |jobs| - 1;
    if Measuring(jobs[n], key) {
      k := n;
    } else {
      SplitLast(jobs);
      k := LastMeasurer(jobs[..n], j, key);
      LastOfInit(jobs, k, key);
    }
  }

  /** The two layers cannot say, or a capture would record nothing. */
  ghost predicate Undecided(i: Invocation, jobs: seq<Job>) {
    Stuck(i.langs, jobs) || i.otherTooling != [] || (i.write && !i.force && !Measures(jobs))
  }

  ghost predicate Objection(file: Stored, i: Invocation, jobs: seq<Job>) {
    || (exists f :: f in i.otherFindings && f.blocking)
    || exists j :: j in jobs && Works(j) && !InOrder(j, file)
  }

  lemma ToolingMeans(i: Invocation, jobs: seq<Job>)
    requires ResultsOf(jobs, i.results)
    ensures ToolingOf(i) == [] <==> !Stuck(i.langs, jobs) && i.otherTooling == []
  {
    BrokenMeans(jobs, i.results);
    AllEvaluated(i.langs, i.results);
    forall lang ensures LangRan(i.results, lang) <==> LangWorks(jobs, lang) { LangMeans(jobs, i.results, lang); }
  }

  lemma FindingsBlock(file: Stored, i: Invocation, jobs: seq<Job>)
    requires ResultsOf(jobs, i.results)
    ensures (exists f :: f in i.otherFindings + FindingsOf(i.results, LoadBaseline(file)) && f.blocking)
            <==> Objection(file, i, jobs)
  {
    var own := FindingsOf(i.results, LoadBaseline(file));
    NoFindings(i.results, LoadBaseline(file));
    FindingsMean(jobs, i.results, file);
    BlockingFindings(i.otherFindings, own);
  }

  /** The hook exits 2 when the layers cannot say, 1 when they can and object, and 0 otherwise. */
  lemma HookMeans(file: Stored, i: Invocation, jobs: seq<Job>)
    requires ResultsOf(jobs, i.results)
    ensures HookExit(file, i) == if Undecided(i, jobs) then 2 else if Objection(file, i, jobs) then 1 else 0
  {
    ToolingMeans(i, jobs);
    FindingsBlock(file, i, jobs);
    NoneMeasured(jobs, i.results);
  }

  /** One dead process among those judged makes the hook exit 2, and a capture that is not forced
      leaves the file as it was. */
  lemma DeathRefuses(file: Stored, i: Invocation, jobs: seq<Job>, j: Job, p: Process)
    requires ResultsOf(jobs, i.results) && j in jobs && p in Judged(j)
    requires p.rc < 0 || (p.rc > 1 && p.rc !in j.check.findingsExit)
    ensures HookExit(file, i) == 2 && (!i.force ==> HookFile(file, i) == file)
  {
    assert Dead(p.rc, j.check.findingsExit);
    assert SomeDead(j);
    assert Refuses(j);
    ToolingMeans(i, jobs);
    HookMeans(file, i, jobs);
  }

  /** A check that counts findings, whose processes all exit 0, 1 or with a declared code and match no
      error pattern, is judged by its count once it has counted one. */
  lemma DeclaredCodeJudged(j: Job)
    requires j.attempt.Ran? && j.check.counts && !SomeError(j)
    requires forall p :: p in Judged(j) ==> p.rc == 0 || p.rc == 1 || (p.rc > 1 && p.rc in j.check.findingsExit)
    requires exists p :: p in Judged(j) && p.counted > 0
    ensures Works(j) && !Refuses(j)
  {
    forall p | p in Judged(j) ensures !Dead(p.rc, j.check.findingsExit) {}
  }

  // ----- The file -------------------------------------------------------------------------------------

  /** What a capture leaves at a key: the count of the last check that measured it, and otherwise the
      integer that was there. */
  lemma CaptureMeans(file: Stored, jobs: seq<Job>, results: seq<Result>, key: string)
    requires ResultsOf(jobs, results)
    ensures var after := WriteBaseline(file, MetricsOf(results));
            && (forall k: nat :: LastMeasuring(jobs, k, key) ==> StoredAt(after, key) == Some(Tally(Judged(jobs[k]))))
            && ((forall k: nat :: !LastMeasuring(jobs, k, key)) ==> StoredAt(after, key) == StoredAt(file, key))
  {
    MetricsMean(jobs, results, key);
    LimitExact(file, key);
  }

  /** The hook writes exactly when it is asked to and either is forced or has every layer in order and
      a metric to record. */
  lemma HookWrites(file: Stored, i: Invocation, jobs: seq<Job>)
    requires ResultsOf(jobs, i.results)
    ensures i.write && (i.force || !Undecided(i, jobs)) ==>
            HookFile(file, i) == WriteBaseline(file, MetricsOf(i.results))
    ensures !i.write || (!i.force && Undecided(i, jobs)) ==> HookFile(file, i) == file
  {
    ToolingMeans(i, jobs);
    NoneMeasured(jobs, i.results);
  }

  /** The `baseline` command is refused for an unconfigured language, for nothing staged, and for a
      write that is not forced while a check cannot say or nothing is measured. */
  lemma BaselineMeans(c: Capture, jobs: seq<Job>)
    requires ResultsOf(jobs, c.results)
    ensures CaptureRefused(c) <==>
            c.unknown || |c.langs| == 0 || (c.write && !c.force && (Stuck(c.langs, jobs) || !Measures(jobs)))
  {
    var i := Invocation(c.langs, c.results, [], [], c.write, c.force);
    ToolingMeans(i, jobs);
    NoneMeasured(jobs, c.results);
    assert ToolingOf(i) == CaptureTooling(c);
  }

  /** The command in front of the layers: 0 without looking when it is skipped or nothing is staged, 2
      when the content to commit cannot be checked. */
  lemma CommandMeans(file: Stored, g: Staging, i: Invocation)
    ensures g.skip || g.files == 0 ==> CommandExit(file, g, i) == 0 && CommandFile(file, g, i) == file
    ensures !g.skip && g.files > 0
            && ((!g.allowDivergence && (g.diverging.None? || g.diverging.value > 0))
                || (g.unknown > 0 && g.failOnUnknown)
                || g.missing > 0 || (g.required && !g.installed))
            ==> CommandExit(file, g, i) == 2 && CommandFile(file, g, i) == file
    ensures !g.skip && g.files > 0 && (g.allowDivergence || g.diverging == Some(0))
            && (g.unknown == 0 || !g.failOnUnknown) && g.missing == 0 && (g.installed || !g.required)
            ==> CommandExit(file, g, i) == HookExit(file, i) && CommandFile(file, g, i) == HookFile(file, i)
  {
  }
}
