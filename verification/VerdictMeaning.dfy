/** What the bounty gate decides, said of the recorded facts alone. */
module VerdictMeaning {
  import opened Ordering
  import Text
  import Materialize
  import opened StoreMeaning
  import opened BountyGate
  import opened BountyTheorems

  // ----- The clauses ------------------------------------------------------------------------

  ghost predicate AtLeast(have: string, need: string) {
    exists i: nat, j: nat :: Level(have, i) && Level(need, j) && j <= i
  }

  /** What an amount counts for, when it is one. */
  predicate Counts(a: Amount, v: real) {
    match a
    case Boolean(truth) => v == if truth then 1.0 else 0.0
    case Integer(n) => v == n as real
    case Float(value) => v == value
    case _ => false
  }

  ghost predicate ReachesFloor(a: Amount, floor: Amount) {
    exists x, y :: Counts(a, x) && Counts(floor, y) && x >= y
  }

  ghost predicate Within(s: string, t: string) {
    exists pre, post :: s == pre + (t + post)
  }

  predicate LadderIs(f: Facts, state: string) {
    f.ladder.Some? && f.ladder.value.state == state
  }

  /** The severity bands in increasing order. */
  predicate Band(s: string, n: nat) {
    (n == 1 && s == "low") || (n == 2 && s == "medium") || (n == 3 && s == "high") || (n == 4 && s == "critical")
  }

  predicate Banded(s: string) {
    s == "low" || s == "medium" || s == "high" || s == "critical"
  }

  /** The severity is in the floor's band or above; a floor that is no band is reached by any. */
  ghost predicate ReachesBand(severity: string, floor: string) {
    && severity != "" && floor != ""
    && (Banded(floor) ==> exists i: nat, j: nat :: Band(severity, i) && Band(floor, j) && j <= i)
  }

  predicate PositiveAmount(a: Amount) {
    match a
    case Integer(n) => n > 0 || n < -9223372036854775808
    case Float(v) => v > 0.0
    case _ => false
  }

  /** The finding meets the clause. */
  ghost predicate Meets(f: Facts, c: Check) {
    match c
    case SecurityConfirmed => f.status == "CONFIRMED"
    case SnapshotPinned => f.activeSnapshot.Some? && f.pin.Some? && f.pin.value == f.activeSnapshot.value
    case InScope =>
      if f.contract != "" then f.contract in f.scoped || (f.resolvedPath != "" && f.resolvedPath in f.scoped)
      else f.path != "" && f.path in f.scoped
    case KnownIssue => f.exclusion.None? || (f.risk.Some? && f.risk.value.pattern == f.exclusion.value)
    case SeverityFloor => f.severity != ""
    case EvidenceSufficient => AtLeast(f.level, if f.minLevel.Some? then f.minLevel.value else "E4")
    case ForkRepro => f.tier == "T3" || f.tier == "T4"
    case EconomicQuantified =>
      f.extractable != Null && (f.minExtractable == Null || ReachesFloor(f.extractable, f.minExtractable))
    case ExploitContract =>
      || "unit-test" in f.evidenceTypes || "foundry-test" in f.evidenceTypes || "fuzz" in f.evidenceTypes
      || "invariant-test" in f.evidenceTypes || "symbolic-witness" in f.evidenceTypes || "fork-test" in f.evidenceTypes
    case MaximalExploitation => LadderIs(f, "complete") || LadderIs(f, "waived")
    case PriceBasis => f.priceResolved
    case ClaimDrift => |f.drifts| == 0
    case PreconditionAudit =>
      || LadderIs(f, "waived")
      || forall p :: p in f.preconditions && p.enforcedByPoc == "false" ==>
           f.ladder.Some? && exists r :: r in f.ladder.value.removed
                                         && (Within(p.description, r) || Within(r, p.description))
    case ForkPoc => f.forkProven
    case Immunization =>
      if f.patchClause == "none" then true
      else if f.patchClause == "prose" then f.recommendationLength >= 40
      else f.immunity == "immunized"
    case AcceptedRisk => f.risk.None?
    case PaidExploitability =>
      if f.exploitability.None? then (f.status != "CONFIRMED" && f.status != "CHAIN") || !PositiveAmount(f.extractable)
      else
        var e := f.exploitability.value;
        e.paid == Some(false) || (e.paid == Some(true) && e.argumentLength >= 200)
    case AdversarialGame => !f.liveness || |f.deficits| == 0
  }

  /** The clause is asked of the finding. */
  ghost predicate Applies(f: Facts, c: Check) {
    match c
    case ForkRepro => f.requireFork
    case EconomicQuantified => f.requireEconomic
    case ExploitContract => f.requireContract
    case MaximalExploitation => f.status == "CONFIRMED"
    case PriceBasis => exists k, pre :: k in f.impactKeys && k == pre + "_usd"
    case _ => true
  }

  /** A recorded waiver answers the clause. */
  ghost predicate Excused(f: Facts, w: Waivers, c: Check) {
    && c in w && ("*" in w[c] || f.id in w[c])
    && match c
       case ForkPoc => true
       case Immunization => true
       case AdversarialGame => true
       case AcceptedRisk => f.risk.Some? ==> !ReachesBand(f.severity, f.risk.value.minSeverity)
       case PaidExploitability => f.exploitability.Some? ==> f.exploitability.value.paid.Some?
       case _ => false
  }

  // ----- Each clause is the gate's ------------------------------------------------------------

  lemma AtLeastExact(have: string, need: string)
    ensures LevelReached(have, need) <==> AtLeast(have, need)
  {
    if LevelReached(have, need) {
      var i, j :| 0 <= j <= i < |Materialize.EVIDENCE_ORDER|
                  && Materialize.EVIDENCE_ORDER[i] == have && Materialize.EVIDENCE_ORDER[j] == need;
      LevelExact(have, i);
      LevelExact(need, j);
    }
    if AtLeast(have, need) {
      var i: nat, j: nat :| Level(have, i) && Level(need, j) && j <= i;
      LevelExact(have, i);
      LevelExact(need, j);
    }
  }

  lemma CountsExact(a: Amount, v: real)
    ensures Counts(a, v) <==> AsNumber(a) == Some(v)
  {
  }

  lemma QuantifiedExact(f: Facts)
    ensures Quantified(f) <==> Meets(f, EconomicQuantified)
  {
    if AsNumber(f.extractable).Some? && AsNumber(f.minExtractable).Some? {
      CountsExact(f.extractable, AsNumber(f.extractable).value);
      CountsExact(f.minExtractable, AsNumber(f.minExtractable).value);
    }
    if x, y :| Counts(f.extractable, x) && Counts(f.minExtractable, y) && x >= y {
      CountsExact(f.extractable, x);
      CountsExact(f.minExtractable, y);
    }
  }

  lemma {:induction false} ContainsExact(s: string, t: string)
    ensures Contains(s, t) <==> Within(s, t)
  {
    if t <= s {
      assert s == "" + (t + s[|t|..]);
    } else if s != "" {
      ContainsExact(s[1..], t);
      if Within(s[1..], t) {
        var pre, post :| s[1..] == pre + (t + post);
        assert s == ([s[0]] + pre) + (t + post);
      }
      if Within(s, t) {
        var pre, post :| s == pre + (t + post);
        WithinLater(s, t, pre, post);
      }
    } else {
      forall pre, post ensures s != pre + (t + post) {}
    }
  }

  lemma WithinLater(s: string, t: string, pre: string, post: string)
    requires s == pre + (t + post) && !(t <= s)
    ensures s != "" && Within(s[1..], t)
  {
    assert pre == "" ==> t <= pre + (t + post);
    assert s[1..] == pre[1..] + (t + post);
  }

  lemma BandExact(severity: string, risk: Risk)
    ensures Capped(severity, risk) <==> ReachesBand(severity, risk.minSeverity)
  {
    forall s: string, n: nat ensures Band(s, n) <==> n > 0 && SeverityRank(s) == n {}
    if Banded(risk.minSeverity) && Capped(severity, risk) {
      assert Band(severity, SeverityRank(severity)) && Band(risk.minSeverity, SeverityRank(risk.minSeverity));
    }
  }

  lemma ScopeExact(f: Facts)
    ensures Met(f, InScope) <==> Meets(f, InScope)
    ensures ScopeTargets(f) == [] <==> f.contract == "" && f.path == ""
  {
    var targets := ScopeTargets(f);
    if f.contract != "" {
      assert targets[0] == f.contract && f.contract in targets;
      if f.resolvedPath != "" {
        assert f.resolvedPath == f.contract || targets[1] == f.resolvedPath;
        assert f.resolvedPath in targets;
      }
    }
  }

  lemma AuditExact(f: Facts)
    ensures Audited(f) <==> Meets(f, PreconditionAudit)
  {
    forall p: Precondition, r: string
      ensures Touches(p.description, r) <==> Within(p.description, r) || Within(r, p.description)
    {
      ContainsExact(p.description, r);
      ContainsExact(r, p.description);
    }
  }

  lemma RunnableExact(f: Facts)
    ensures Met(f, ExploitContract) <==> Meets(f, ExploitContract)
  {
    forall e: string ensures e in RUNNABLE <==> e in {"unit-test", "foundry-test", "fuzz", "invariant-test",
                                                      "symbolic-witness", "fork-test"} {}
  }

  predicate Plain(c: Check) {
    c != InScope && c != EvidenceSufficient && c != EconomicQuantified && c != ExploitContract && c != PreconditionAudit
  }

  lemma StandingExact(f: Facts)
    ensures Met(f, SecurityConfirmed) <==> Meets(f, SecurityConfirmed)
    ensures Met(f, SnapshotPinned) <==> Meets(f, SnapshotPinned)
    ensures Met(f, KnownIssue) <==> Meets(f, KnownIssue)
    ensures Met(f, SeverityFloor) <==> Meets(f, SeverityFloor)
    ensures Met(f, ForkRepro) <==> Meets(f, ForkRepro)
  {
  }

  lemma RecordsExact(f: Facts)
    ensures Met(f, MaximalExploitation) <==> Meets(f, MaximalExploitation)
    ensures Met(f, PriceBasis) <==> Meets(f, PriceBasis)
    ensures Met(f, ClaimDrift) <==> Meets(f, ClaimDrift)
    ensures Met(f, ForkPoc) <==> Meets(f, ForkPoc)
  {
  }

  lemma ImmuneExact(f: Facts)
    ensures Met(f, Immunization) <==> Meets(f, Immunization)
  {
  }

  lemma AnswersExact(f: Facts)
    ensures Met(f, AcceptedRisk) <==> Meets(f, AcceptedRisk)
    ensures Met(f, PaidExploitability) <==> Meets(f, PaidExploitability)
    ensures Met(f, AdversarialGame) <==> Meets(f, AdversarialGame)
  {
  }

  lemma PlainExact(f: Facts, c: Check)
    requires Plain(c)
    ensures Met(f, c) <==> Meets(f, c)
  {
    StandingExact(f);
    RecordsExact(f);
    ImmuneExact(f);
    AnswersExact(f);
  }

  /** The gate's test of a clause is the recorded fact the clause names. */
  lemma MetExact(f: Facts, c: Check)
    ensures Met(f, c) <==> Meets(f, c)
  {
    match c
    case InScope => ScopeExact(f);
    case EvidenceSufficient => AtLeastExact(f.level, NeedLevel(f));
    case EconomicQuantified => QuantifiedExact(f);
    case ExploitContract => RunnableExact(f);
    case PreconditionAudit => AuditExact(f);
    case _ => PlainExact(f, c);
  }

  lemma AskedExact(f: Facts, c: Check)
    ensures Asked(f, c) <==> Applies(f, c)
  {
    if c == PriceBasis {
      forall k: string ensures UsdKey(k) <==> exists pre :: k == pre + "_usd" { Text.SuffixExact(k, "_usd"); }
    }
  }

  lemma WaivedExact(f: Facts, w: Waivers, c: Check)
    ensures Waived(f, w, c) <==> Excused(f, w, c)
  {
    if f.risk.Some? { BandExact(f.severity, f.risk.value); }
    if c in w && f.id in w[c] { assert Addresses(f.id, f.id); }
    if c in w && "*" in w[c] { assert Addresses("*", f.id); }
  }

  /** The clause is asked, and neither met nor excused. */
  ghost predicate Stands(f: Facts, w: Waivers, c: Check) {
    Applies(f, c) && !Meets(f, c) && !Excused(f, w, c)
  }

  lemma StandsExact(f: Facts, w: Waivers, c: Check)
    ensures Stands(f, w, c) <==> Fails(f, w, c)
  {
    MetExact(f, c);
    AskedExact(f, c);
    WaivedExact(f, w, c);
  }

  // ----- The verdict ----------------------------------------------------------------------------

  /** Submission-ready: every clause asked of the finding is met or excused. */
  lemma ReadyMeans(f: Facts, w: Waivers)
    ensures Decision(f, w).submissionReady <==> forall c: Check :: !Stands(f, w, c)
  {
    forall c: Check ensures Stands(f, w, c) <==> Fails(f, w, c) { StandsExact(f, w, c); }
    ReadyExact(f, w);
  }

  /** Eligible: confirmed, in scope unless no component is recorded at all, and no program exclusion
      but the accepted one. */
  lemma EligibleMeans(f: Facts, w: Waivers)
    ensures Decision(f, w).eligible <==>
            && f.status == "CONFIRMED" && Meets(f, KnownIssue)
            && (Meets(f, InScope) || (f.contract == "" && f.path == ""))
  {
    EligibleExact(f, w);
    ScopeExact(f);
    MetExact(f, KnownIssue);
  }

  /** The row a clause ends up with: a pass when it is met or excused; otherwise unknown without an
      active snapshot or a recorded component, a human review without a severity, and a failure. */
  lemma RowMeans(f: Facts, w: Waivers, c: Check, o: Outcome)
    ensures Row(c, o) in Effective(Decision(f, w).checks) <==>
            && Applies(f, c)
            && (!Stands(f, w, c) ==> o == Pass)
            && (Stands(f, w, c) ==>
                  if (c == SnapshotPinned && f.activeSnapshot.None?)
                     || (c == InScope && f.contract == "" && f.path == "")
                  then o == Unknown
                  else o == if c == SeverityFloor then HumanReview else Fail)
  {
    EffectiveRow(f, w, Row(c, o));
    StandsExact(f, w, c);
    AskedExact(f, c);
    ScopeExact(f);
  }

  lemma {:induction false} RowsListed(f: Facts, w: Waivers, done: seq<Check>, r: Row)
    ensures r in AllRows(f, w, done) <==> r.check in done && r.result in Outcomes(f, w, r.check)
  {
    if done != [] {
      SplitLast(done);
      RowsListed(f, w, done[..|done| - 1], r);
      PartListed(f, w, done[|done| - 1], r);
    }
  }

  lemma PartListed(f: Facts, w: Waivers, c: Check, r: Row)
    ensures r in PartRows(f, w, c) <==> r.check == c && r.result in Outcomes(f, w, c)
  {
    var results, rows := Outcomes(f, w, c), PartRows(f, w, c);
    if r.check == c && r.result in results {
      var i :| 0 <= i < |results| && results[i] == r.result;
      assert rows[i] == r;
    }
  }

  /** Before the rows collapse there is one more kind: the failure in front of the pass of an excused
      argument about payment or adversaries. */
  lemma EveryRowMeans(f: Facts, w: Waivers, r: Row)
    ensures r in Decision(f, w).checks <==>
            || r in Effective(Decision(f, w).checks)
            || (r.result == Fail && (r.check == PaidExploitability || r.check == AdversarialGame)
                && !Meets(f, r.check) && Excused(f, w, r.check))
  {
    ClausesComplete();
    RowsListed(f, w, Clauses(), r);
    EffectiveRow(f, w, r);
    MetExact(f, r.check);
    WaivedExact(f, w, r.check);
  }

  /** The clauses stand in the order of the checks. */
  ghost predicate Strict(s: seq<Check>) {
    forall i, j :: 0 <= i < j < |s| ==> Place(s[i]) < Place(s[j])
  }

  lemma {:induction false} BlockersInOrder(f: Facts, w: Waivers, done: seq<Check>)
    requires Strict(done)
    ensures var b := AllBlockers(f, w, done);
            && (forall c :: c in b ==> c in done)
            && forall i, j :: 0 <= i < j < |b| ==> Place(b[i]) < Place(b[j])
  {
    if done != [] {
      var init, last := done[..|done| - 1], done[|done| - 1];
      SplitLast(done);
      BlockersInOrder(f, w, init);
      var earlier := AllBlockers(f, w, init);
      forall i | 0 <= i < |earlier| ensures Place(earlier[i]) < Place(last) {
        assert earlier[i] in earlier && earlier[i] in init;
        var k :| 0 <= k < |init| && init[k] == earlier[i];
        assert done[k] == init[k];
      }
    }
  }

  /** The blockers are the standing clauses, but for a payment argument whose answer is no boolean. */
  lemma BlockersMean(f: Facts, w: Waivers, c: Check)
    ensures c in Decision(f, w).blockers <==>
            && Stands(f, w, c)
            && !(c == PaidExploitability && f.exploitability.Some? && f.exploitability.value.paid.None?)
  {
    BlockerExact(f, w, c);
    StandsExact(f, w, c);
  }

  lemma StrictClauses(s: seq<Check>)
    requires s == Clauses()
    ensures Strict(s)
  {
    ClausesInOrder();
    forall i, j | 0 <= i < j < |s| ensures Place(s[i]) < Place(s[j]) {
      assert Place(s[i]) == i && Place(s[j]) == j;
    }
  }

  /** They are listed in the order of the checks, each once. */
  lemma BlockersOrdered(f: Facts, w: Waivers, b: seq<Check>)
    requires b == Decision(f, w).blockers
    ensures forall i, j :: 0 <= i < j < |b| ==> Place(b[i]) < Place(b[j])
  {
    var s := Clauses();
    StrictClauses(s);
    BlockersInOrder(f, w, s);
    assert b == AllBlockers(f, w, s);
  }

  /** In the order of the checks; for one check, the failure in front of the pass that answers it. */
  predicate RowBefore(a: Row, b: Row) {
    Place(a.check) < Place(b.check) || (a.check == b.check && a.result == Fail && b.result == Pass)
  }

  ghost predicate RowsOrdered(rows: seq<Row>) {
    forall i, j :: 0 <= i < j < |rows| ==> RowBefore(rows[i], rows[j])
  }

  lemma BlockInOrder(f: Facts, w: Waivers, c: Check)
    ensures RowsOrdered(PartRows(f, w, c)) && forall r :: r in PartRows(f, w, c) ==> r.check == c
  {
  }

  lemma EarlierPlaces(init: seq<Check>, last: Check, rows: seq<Row>)
    requires Strict(init + [last]) && forall r :: r in rows ==> r.check in init
    ensures forall i :: 0 <= i < |rows| ==> Place(rows[i].check) < Place(last)
  {
    forall i | 0 <= i < |rows| ensures Place(rows[i].check) < Place(last) {
      assert rows[i] in rows;
      var k :| 0 <= k < |init| && init[k] == rows[i].check;
      assert (init + [last])[k] == init[k] && (init + [last])[|init|] == last;
    }
  }

  lemma StrictInit(init: seq<Check>, last: Check)
    requires Strict(init + [last])
    ensures Strict(init)
  {
    var s := init + [last];
    forall i, j | 0 <= i < j < |init| ensures Place(init[i]) < Place(init[j]) {
      assert s[i] == init[i] && s[j] == init[j];
    }
  }

  lemma {:induction false} RowsInOrder(f: Facts, w: Waivers, done: seq<Check>)
    requires Strict(done)
    ensures RowsOrdered(AllRows(f, w, done))
  {
    if done != [] {
      var init, last := done[..|done| - 1], done[|done| - 1];
      SplitLast(done);
      StrictInit(init, last);
      RowsInOrder(f, w, init);
      RowsNamed(f, w, init);
      EarlierPlaces(init, last, AllRows(f, w, init));
      BlockInOrder(f, w, last);
      RowsJoin(AllRows(f, w, init), PartRows(f, w, last), last);
    }
  }

  lemma RowsJoin(earlier: seq<Row>, block: seq<Row>, c: Check)
    requires RowsOrdered(earlier) && RowsOrdered(block)
    requires (forall r :: r in block ==> r.check == c) && forall i :: 0 <= i < |earlier| ==>
             Place(earlier[i].check) < Place(c)
    ensures RowsOrdered(earlier + block)
  {
    var rows := earlier + block;
    forall i, j | 0 <= i < j < |rows| ensures RowBefore(rows[i], rows[j]) {
      if i < |earlier| <= j { assert rows[j] in block; }
    }
  }

  /** So are the rows. */
  lemma ChecksOrdered(f: Facts, w: Waivers, rows: seq<Row>)
    requires rows == Decision(f, w).checks
    ensures RowsOrdered(rows)
  {
    var s := Clauses();
    StrictClauses(s);
    RowsInOrder(f, w, s);
    assert rows == AllRows(f, w, s);
  }

  lemma ClausesInOrder()
    ensures |Clauses()| == 18 && forall i :: 0 <= i < 18 ==> Place(Clauses()[i]) == i
  {
    var s := Clauses();
    assert |s| == 18;
    assert forall i :: 0 <= i < 18 ==> Place(s[i]) == i;
  }

  /** There is no verdict for a finding whose evidence level, or whose required one, is none of the
      eight, or under a patch clause the gate does not know. */
  lemma AbortMeans(f: Facts)
    ensures Aborts(f) <==>
            || (forall n: nat :: !Level(f.level, n))
            || (f.minLevel.Some? && forall n: nat :: !Level(f.minLevel.value, n))
            || (f.patchClause != "" && f.patchClause != "verification" && f.patchClause != "prose"
                && f.patchClause != "none")
  {
    KnownExact(f.level);
    KnownExact(NeedLevel(f));
    assert Level("E4", 4);
  }

  /** The acceptance the finding carries afterwards is the matching pattern's, unless the severity
      reaches its floor; then what was on record stays. */
  lemma RecordMeans(f: Facts, w: Waivers)
    ensures f.risk.Some? && !ReachesBand(f.severity, f.risk.value.minSeverity) ==> Decision(f, w).acceptedRisk == f.risk
    ensures f.risk.None? || ReachesBand(f.severity, f.risk.value.minSeverity) ==>
              Decision(f, w).acceptedRisk == f.storedRisk
  {
    if f.risk.Some? { BandExact(f.severity, f.risk.value); }
  }

  /** The patch is noted, not required: the program asks for none, or a long enough recommendation
      answers it. */
  predicate Noted(f: Facts) {
    f.patch.Some? && (f.patchClause == "none" || (f.patchClause == "prose" && f.recommendationLength >= 40))
  }

  /** The advisories of the verdict: those on the finding, or the code's acknowledgement in their
      place, and behind them the weakest thing known about a noted patch. */
  lemma AdvisoriesMean(f: Facts, w: Waivers)
    ensures var stored := if f.inCodeAck then [InCodeAck] else f.storedAdvisories;
            && (!Noted(f) ==> Decision(f, w).advisories == stored)
            && (Noted(f) && f.patch.value.bypassFound ==> Decision(f, w).advisories == stored + [BypassFound])
            && (Noted(f) && !f.patch.value.bypassFound ==>
                  && (f.patch.value.mutationsTested >= 3 ==> Decision(f, w).advisories == stored)
                  && (f.patch.value.mutationsTested < 3 ==>
                        Decision(f, w).advisories == stored + [TooFewMutations(f.patch.value.mutationsTested)]))
  {
    var stored := if f.inCodeAck then [InCodeAck] else f.storedAdvisories;
    assert stored + [] == stored;
  }

  lemma EverythingWaived(f: Facts)
    ensures Excused(f, AllWaivers(), AcceptedRisk)
            <==> (f.risk.Some? ==> !ReachesBand(f.severity, f.risk.value.minSeverity))
  {
    assert AllWaivers()[AcceptedRisk] == ["*"] && "*" in AllWaivers()[AcceptedRisk];
  }

  lemma OneBand(s: string, n: nat)
    requires Band(s, n)
    ensures s != "" && Banded(s) && forall k: nat :: Band(s, k) <==> k == n
  {
  }

  lemma BandsCompare(s: string, floor: string, i: nat, j: nat)
    requires Band(s, i) && Band(floor, j)
    ensures ReachesBand(s, floor) <==> j <= i
  {
    OneBand(s, i);
    OneBand(floor, j);
  }

  /** An acceptance with a floor in the ladder low, medium, high, critical is void for a finding of
      that band or above: under every waiver it blocks, and it leaves no record. For a finding of a
      lower band it is recorded, and a waiver answers it. */
  lemma BandsRank(f: Facts, w: Waivers, risk: Risk, i: nat, j: nat)
    requires f.risk == Some(risk) && Band(f.severity, i) && Band(risk.minSeverity, j)
    ensures j <= i <==> AcceptedRisk in Decision(f, AllWaivers()).blockers
    ensures Decision(f, w).acceptedRisk == if j <= i then f.storedRisk else f.risk
  {
    BandsCompare(f.severity, risk.minSeverity, i, j);
    EverythingWaived(f);
    BlockersMean(f, AllWaivers(), AcceptedRisk);
    RecordMeans(f, w);
  }

  lemma UnbandedReachesNone(s: string, floor: string)
    requires !Banded(s) && Banded(floor)
    ensures !ReachesBand(s, floor)
  {
    forall k: nat ensures !Band(s, k) {}
  }

  /** A severity outside the ladder is below every band of it. */
  lemma UnbandedIsBelow(f: Facts, w: Waivers, risk: Risk)
    requires f.risk == Some(risk) && !Banded(f.severity) && Banded(risk.minSeverity)
    ensures Decision(f, w).acceptedRisk == f.risk && AcceptedRisk !in Decision(f, AllWaivers()).blockers
  {
    UnbandedReachesNone(f.severity, risk.minSeverity);
    EverythingWaived(f);
    BlockersMean(f, AllWaivers(), AcceptedRisk);
    RecordMeans(f, w);
  }
}
