/** What the verdict of the bounty gate means, and what waivers can and cannot change. */
module BountyTheorems {
  import opened Ordering
  import opened BountyGate
  import Materialize

  // ----- The effective row of a check -----------------------------------------------------

  /** `r` is the last row of its check. */
  ghost predicate IsLast(rows: seq<Row>, r: Row) {
    exists i :: 0 <= i < |rows| && rows[i] == r && !Superseded(rows, i)
  }

  lemma {:induction false} KeptContents(rows: seq<Row>, n: nat, r: Row)
    requires n <= |rows|
    ensures r in Kept(rows, n) <==> exists i :: 0 <= i < n && rows[i] == r && !Superseded(rows, i)
  {
    if n > 0 {
      KeptContents(rows, n - 1, r);
    }
  }

  /** The effective rows are the last row of each check name. */
  lemma EffectiveContents(rows: seq<Row>, r: Row)
    ensures r in Effective(rows) <==> IsLast(rows, r)
  {
    KeptContents(rows, |rows|, r);
  }

  lemma {:induction false} LastExists(rows: seq<Row>, i: nat) returns (j: nat)
    requires i < |rows|
    ensures i <= j < |rows| && rows[j].check == rows[i].check && !Superseded(rows, j)
    decreases |rows| - i
  {
    j := i;
    if Superseded(rows, i) {
      var k :| i < k < |rows| && rows[k].check == rows[i].check;
      j := LastExists(rows, k);
    }
  }

  /** Collapsing keeps exactly one row per check name. */
  lemma OneEffectiveRow(rows: seq<Row>, c: Check)
    ensures (exists r :: r in rows && r.check == c) <==> (exists r :: r in Effective(rows) && r.check == c)
    ensures forall r, s :: r in Effective(rows) && s in Effective(rows) && r.check == s.check ==> r == s
  {
    forall r ensures r in Effective(rows) <==> IsLast(rows, r) { EffectiveContents(rows, r); }
    if r :| r in rows && r.check == c {
      var i :| 0 <= i < |rows| && rows[i] == r;
      var j := LastExists(rows, i);
      assert IsLast(rows, rows[j]);
    }
  }

  ghost predicate Apart(a: seq<Row>, b: seq<Row>) {
    forall r, s :: r in a && s in b ==> r.check != s.check
  }

  lemma LastOfLeft(a: seq<Row>, b: seq<Row>, r: Row)
    requires Apart(a, b) && IsLast(a, r)
    ensures IsLast(a + b, r)
  {
    var i :| 0 <= i < |a| && a[i] == r && !Superseded(a, i);
    assert (a + b)[i] == r;
    forall j | i < j < |a + b| ensures (a + b)[j].check != r.check {
      assert j >= |a| ==> (a + b)[j] in b;
    }
  }

  lemma LastOfRight(a: seq<Row>, b: seq<Row>, r: Row)
    requires IsLast(b, r)
    ensures IsLast(a + b, r)
  {
    var i :| 0 <= i < |b| && b[i] == r && !Superseded(b, i);
    assert (a + b)[|a| + i] == r;
    forall j | |a| + i < j < |a + b| ensures (a + b)[j].check != r.check {
      assert (a + b)[j] == b[j - |a|];
    }
  }

  lemma LastOfEither(a: seq<Row>, b: seq<Row>, r: Row)
    requires IsLast(a + b, r)
    ensures IsLast(a, r) || IsLast(b, r)
  {
    var i :| 0 <= i < |a + b| && (a + b)[i] == r && !Superseded(a + b, i);
    if i < |a| {
      forall j | i < j < |a| ensures a[j].check != r.check { assert (a + b)[j] == a[j]; }
      assert a[i] == r;
    } else {
      var k := i - |a|;
      forall j | k < j < |b| ensures b[j].check != r.check { assert (a + b)[|a| + j] == b[j]; }
      assert b[k] == r;
    }
  }

  /** The result the gate ends up with for a check it asks. */
  ghost function Final(f: Facts, w: Waivers, c: Check): Outcome {
    if Met(f, c) || Waived(f, w, c) then Pass else Shortfall(f, c)
  }

  lemma PartLast(f: Facts, w: Waivers, c: Check, r: Row)
    ensures IsLast(PartRows(f, w, c), r) <==> Asked(f, c) && r == Row(c, Final(f, w, c))
  {
    var rows := PartRows(f, w, c);
    if rows != [] {
      assert !Superseded(rows, |rows| - 1);
      assert rows[|rows| - 1] == Row(c, Final(f, w, c));
      assert |rows| == 2 ==> rows[1].check == rows[0].check;
    }
  }

  lemma {:induction false} RowsNamed(f: Facts, w: Waivers, done: seq<Check>)
    ensures forall r :: r in AllRows(f, w, done) ==> r.check in done
  {
    if done != [] {
      SplitLast(done);
      RowsNamed(f, w, done[..|done| - 1]);
    }
  }

  lemma {:induction false} RunLast(f: Facts, w: Waivers, done: seq<Check>, r: Row)
    requires Distinct(done)
    ensures IsLast(AllRows(f, w, done), r) <==> r.check in done && Asked(f, r.check) && r.result == Final(f, w, r.check)
  {
    if done != [] {
      var init, c := done[..|done| - 1], done[|done| - 1];
      SplitLast(done);
      var a, b := AllRows(f, w, init), PartRows(f, w, c);
      RunLast(f, w, init, r);
      PartLast(f, w, c, r);
      RowsNamed(f, w, init);
      assert Apart(a, b);
      if IsLast(a, r) { LastOfLeft(a, b, r); }
      if IsLast(b, r) { LastOfRight(a, b, r); }
      if IsLast(a + b, r) { LastOfEither(a, b, r); }
    }
  }

  function Place(c: Check): nat {
    match c
    case SecurityConfirmed => 0
    case SnapshotPinned => 1
    case InScope => 2
    case KnownIssue => 3
    case SeverityFloor => 4
    case EvidenceSufficient => 5
    case ForkRepro => 6
    case EconomicQuantified => 7
    case ExploitContract => 8
    case MaximalExploitation => 9
    case PriceBasis => 10
    case ClaimDrift => 11
    case PreconditionAudit => 12
    case ForkPoc => 13
    case Immunization => 14
    case AcceptedRisk => 15
    case PaidExploitability => 16
    case AdversarialGame => 17
  }

  /** The fifteen checks evaluate every clause, each once. */
  lemma ClausesComplete()
    ensures Distinct(Clauses())
    ensures forall c: Check :: c in Clauses()
  {
    var s := Clauses();
    assert |s| == 18;
    assert forall i :: 0 <= i < 18 ==> Place(s[i]) == i;
    forall c: Check ensures c in s { assert s[Place(c)] == c; }
  }

  /** The effective row of a check is there exactly when the check is asked, and passes
      exactly when the finding meets the check or a waiver answers it. */
  lemma EffectiveRow(f: Facts, w: Waivers, r: Row)
    ensures r in Effective(AllRows(f, w, Clauses())) <==> Asked(f, r.check) && r.result == Final(f, w, r.check)
  {
    ClausesComplete();
    RunLast(f, w, Clauses(), r);
    EffectiveContents(AllRows(f, w, Clauses()), r);
  }

  lemma {:induction false} BlockersListed(f: Facts, w: Waivers, done: seq<Check>, c: Check)
    ensures c in AllBlockers(f, w, done) <==> c in done && Blocks(f, w, c)
  {
    if done != [] {
      SplitLast(done);
      BlockersListed(f, w, done[..|done| - 1], c);
    }
  }

  // ----- The verdict agrees with its reasons -------------------------------------------------

  ghost predicate Fails(f: Facts, w: Waivers, c: Check) {
    Asked(f, c) && !Met(f, c) && !Waived(f, w, c)
  }

  lemma FailureRow(f: Facts, w: Waivers, c: Check)
    requires Fails(f, w, c)
    ensures Row(c, Shortfall(f, c)) in Effective(AllRows(f, w, Clauses())) && Shortfall(f, c) != Pass
  {
    EffectiveRow(f, w, Row(c, Shortfall(f, c)));
  }

  lemma RowFailure(f: Facts, w: Waivers, r: Row)
    requires r in Effective(AllRows(f, w, Clauses())) && r.result != Pass
    ensures Fails(f, w, r.check)
  {
    EffectiveRow(f, w, r);
  }

  lemma BlockerExact(f: Facts, w: Waivers, c: Check)
    ensures c in Decision(f, w).blockers <==> Fails(f, w, c) && !(c == PaidExploitability && Malformed(f))
  {
    ClausesComplete();
    BlockersListed(f, w, Clauses(), c);
  }

  lemma Member<T>(s: seq<T>)
    ensures s == [] || exists x :: x in s
  {
    if s != [] { assert s[0] in s; }
  }

  /** A blocker is never recorded without a non-pass effective row, and the one non-pass
      effective row that has no blocker is the malformed exploitability's. */
  lemma BlockersAreFailures(f: Facts, w: Waivers, c: Check)
    ensures var d := Decision(f, w);
            c in d.blockers <==>
            (exists r :: r in Effective(d.checks) && r.check == c && r.result != Pass)
              && !(c == PaidExploitability && Malformed(f))
  {
    BlockerExact(f, w, c);
    if Fails(f, w, c) {
      FailureRow(f, w, c);
    } else {
      forall r | r in Effective(AllRows(f, w, Clauses())) && r.check == c ensures r.result == Pass {
        if r.result != Pass { RowFailure(f, w, r); }
      }
    }
  }

  /** The blocker list adds nothing: the effective rows alone decide. */
  lemma RowsDecide(f: Facts, w: Waivers)
    ensures var d := Decision(f, w); d.submissionReady <==> forall r :: r in Effective(d.checks) ==> r.result == Pass
  {
    var d := Decision(f, w);
    if forall r :: r in Effective(d.checks) ==> r.result == Pass {
      forall c: Check ensures c !in d.blockers { BlockersAreFailures(f, w, c); }
      Member(d.blockers);
    }
  }

  /** Submission-ready holds exactly when every check asked is met or waived. */
  lemma ReadyExact(f: Facts, w: Waivers)
    ensures Decision(f, w).submissionReady <==> forall c: Check :: !Fails(f, w, c)
  {
    RowsDecide(f, w);
    if Decision(f, w).submissionReady {
      forall c: Check ensures !Fails(f, w, c) {
        if Fails(f, w, c) { FailureRow(f, w, c); }
      }
    } else {
      var r :| r in Effective(Decision(f, w).checks) && r.result != Pass;
      RowFailure(f, w, r);
    }
  }

  lemma FinalFail(f: Facts, w: Waivers, c: Check)
    requires c == SecurityConfirmed || c == InScope || c == KnownIssue
    ensures Row(c, Fail) in Effective(AllRows(f, w, Clauses())) <==>
            !Met(f, c) && !(c == InScope && ScopeTargets(f) == [])
  {
    EffectiveRow(f, w, Row(c, Fail));
  }

  /** Eligibility rests on the three unwaivable checks alone; an unrecorded component reads
      as unknown, which does not make a finding ineligible. */
  lemma EligibleExact(f: Facts, w: Waivers)
    ensures Decision(f, w).eligible <==>
            Met(f, SecurityConfirmed) && Met(f, KnownIssue) && (Met(f, InScope) || ScopeTargets(f) == [])
  {
    FinalFail(f, w, SecurityConfirmed);
    FinalFail(f, w, KnownIssue);
    FinalFail(f, w, InScope);
    EligibleByThree(AllRows(f, w, Clauses()));
  }

  lemma EligibleByRows(rows: seq<Row>)
    ensures Eligible(rows) <==> forall c :: c in ELIGIBILITY ==> Row(c, Fail) !in Effective(rows)
  {
    if !Eligible(rows) {
      var r :| r in Effective(rows) && r.check in ELIGIBILITY && r.result == Fail;
      assert r == Row(r.check, Fail);
    }
  }

  lemma EligibleByThree(rows: seq<Row>)
    ensures Eligible(rows) <==>
            && Row(SecurityConfirmed, Fail) !in Effective(rows) && Row(InScope, Fail) !in Effective(rows)
            && Row(KnownIssue, Fail) !in Effective(rows)
  {
    EligibleByRows(rows);
    assert SecurityConfirmed in ELIGIBILITY && InScope in ELIGIBILITY && KnownIssue in ELIGIBILITY;
  }

  /** A submission-ready finding is CONFIRMED and eligible. */
  lemma ReadyMeansConfirmed(f: Facts, w: Waivers)
    requires Decision(f, w).submissionReady
    ensures f.status == "CONFIRMED" && Decision(f, w).eligible
  {
    ReadyExact(f, w);
    EligibleExact(f, w);
    assert !Fails(f, w, SecurityConfirmed) && !Fails(f, w, InScope) && !Fails(f, w, KnownIssue);
  }

  lemma NoBlockers(f: Facts, w: Waivers)
    ensures Decision(f, w).blockers == [] <==>
            forall c: Check :: Fails(f, w, c) ==> c == PaidExploitability && Malformed(f)
  {
    var blockers := Decision(f, w).blockers;
    forall c: Check ensures c in blockers <==> Fails(f, w, c) && !(c == PaidExploitability && Malformed(f)) {
      BlockerExact(f, w, c);
    }
    Member(blockers);
  }

  /** A refusal that names no reason happens exactly when the exploitability is malformed and
      every other check passes. */
  lemma SilentRefusalExact(f: Facts, w: Waivers)
    ensures var d := Decision(f, w);
            !d.submissionReady && d.blockers == [] <==>
            Malformed(f) && forall c: Check :: c != PaidExploitability ==> !Fails(f, w, c)
  {
    ReadyExact(f, w);
    NoBlockers(f, w);
    if Malformed(f) {
      assert Fails(f, w, PaidExploitability);
    }
  }

  /** A confirmed finding that passes everything, but for an exploitability record whose `paid`
      is not a boolean. */
  function Unpaid(): Facts {
    Facts("F", "CONFIRMED", Some("s"), Some("s"), "", "", "a", {"a"}, None, None, "high", "E4", None,
          false, "", false, Null, Null, false, [], Some(Ladder("complete", [])), [], false, [], [], true,
          "none", "", 0, None, Some(Exploitability(None, 0)), false, [], false, [], None)
  }

  lemma UnpaidMeets(c: Check)
    requires c != PaidExploitability && Asked(Unpaid(), c)
    ensures Met(Unpaid(), c)
  {
    match c
    case InScope => assert "a" in ScopeTargets(Unpaid());
    case EvidenceSufficient => assert Materialize.EVIDENCE_ORDER[4] == "E4";
    case _ =>
  }

  lemma UnpaidRuns()
    ensures !Aborts(Unpaid())
  {
    assert Materialize.EVIDENCE_ORDER[4] == "E4";
  }

  lemma UnpaidFailsOnly(w: Waivers, c: Check)
    requires c != PaidExploitability
    ensures !Fails(Unpaid(), w, c)
  {
    if Asked(Unpaid(), c) { UnpaidMeets(c); }
  }

  lemma UnpaidIsMalformed()
    ensures Malformed(Unpaid())
  {
  }

  /** It is refused, under every waiver table, without a single blocking reason. */
  lemma SilentRefusal(w: Waivers)
    ensures !Aborts(Unpaid()) && !Decision(Unpaid(), w).submissionReady && Decision(Unpaid(), w).blockers == []
  {
    UnpaidRuns();
    UnpaidIsMalformed();
    var f := Unpaid();
    forall c: Check | c != PaidExploitability ensures !Fails(f, w, c) { UnpaidFailsOnly(w, c); }
    SilentRefusalExact(f, w);
  }

  /** A confirmed finding without an exploitability record, whose extractable amount is a negative
      integer, is blocked for it exactly when the amount does not fit 64 bits. */
  lemma NegativeExtractable(f: Facts, w: Waivers)
    requires f.status == "CONFIRMED" && f.extractable.Integer? && f.extractable.n < 0 && f.exploitability.None?
    ensures PaidExploitability in Decision(f, w).blockers
            <==> f.extractable.n < MIN_INT64 && !Waived(f, w, PaidExploitability)
  {
    BlockerExact(f, w, PaidExploitability);
  }

  // ----- Advisories -----------------------------------------------------------------------------

  /** Saving the verdict and running the gate again gives the same advisories exactly when the
      code acknowledges the finding or the checks raise none: otherwise the checks' advisories
      are repeated on every run. */
  lemma RerunRepeats(f: Facts, w: Waivers)
    ensures var again := f.(storedAdvisories := Decision(f, w).advisories);
            Decision(again, w).advisories == Decision(f, w).advisories <==> f.inCodeAck || Advisories(f) == []
  {
    var first := Decision(f, w).advisories;
    var again := f.(storedAdvisories := first);
    assert Advisories(again) == Advisories(f);
    if !f.inCodeAck {
      assert |Decision(again, w).advisories| == |first| + |Advisories(f)|;
      if Advisories(f) == [] { assert first + [] == first; }
    }
  }

  // ----- Two runs -----------------------------------------------------------------------------

  /** Every waiver of the first table is in the second. */
  ghost predicate Enlarges(more: Waivers, w: Waivers) {
    forall c, s :: c in w && s in w[c] ==> c in more && s in more[c]
  }

  lemma MoreCovered(more: Waivers, w: Waivers, c: Check, id: string)
    requires Enlarges(more, w) && Covered(w, c, id)
    ensures Covered(more, c, id)
  {
    var s :| s in w[c] && Addresses(s, id);
    assert s in more[c];
  }

  /** Enlarging the waiver table adds no failure: submission-ready stays so, no blocker
      appears, and eligibility does not move. */
  lemma WaiversAreMonotone(f: Facts, w: Waivers, more: Waivers)
    requires Enlarges(more, w)
    ensures Decision(f, w).submissionReady ==> Decision(f, more).submissionReady
    ensures forall c :: c in Decision(f, more).blockers ==> c in Decision(f, w).blockers
    ensures Decision(f, more).eligible == Decision(f, w).eligible
  {
    forall c: Check ensures Fails(f, more, c) ==> Fails(f, w, c) {
      if Covered(w, c, f.id) { MoreCovered(more, w, c, f.id); }
    }
    ReadyExact(f, w);
    ReadyExact(f, more);
    EligibleExact(f, w);
    EligibleExact(f, more);
    forall c: Check ensures c in Decision(f, more).blockers ==> c in Decision(f, w).blockers {
      BlockerExact(f, w, c);
      BlockerExact(f, more, c);
    }
  }

  /** Waives everything that can be waived, for every finding. */
  function AllWaivers(): Waivers {
    map[ForkPoc := ["*"], Immunization := ["*"], AcceptedRisk := ["*"], PaidExploitability := ["*"],
        AdversarialGame := ["*"]]
  }

  lemma AllWaived(f: Facts, c: Check)
    requires Waivable(f, c)
    ensures Waived(f, AllWaivers(), c)
  {
    var w := AllWaivers();
    assert c in w && w[c] == ["*"];
    assert "*" in w[c] && Addresses("*", f.id);
  }

  /** Some waiver table makes the finding submission-ready exactly when every failing check
      is one a waiver may answer. */
  lemma WaiversSuffice(f: Facts)
    ensures (exists w :: Decision(f, w).submissionReady) <==>
            forall c: Check :: Asked(f, c) && !Met(f, c) ==> Waivable(f, c)
  {
    if w :| Decision(f, w).submissionReady {
      ReadyExact(f, w);
      forall c: Check | Asked(f, c) && !Met(f, c) ensures Waivable(f, c) { assert !Fails(f, w, c); }
    }
    if forall c: Check :: Asked(f, c) && !Met(f, c) ==> Waivable(f, c) {
      forall c: Check ensures !Fails(f, AllWaivers(), c) {
        if Waivable(f, c) { AllWaived(f, c); }
      }
      ReadyExact(f, AllWaivers());
    }
  }

  // ----- The accepted risk on record ----------------------------------------------------------

  /** An accepted risk whose severity reaches its floor fails under every waiver table, and the
      record on the finding stays what it was. */
  lemma CappedRiskFails(f: Facts, w: Waivers)
    requires f.risk.Some? && Capped(f.severity, f.risk.value)
    ensures Row(AcceptedRisk, Fail) in Effective(Decision(f, w).checks)
    ensures AcceptedRisk in Decision(f, w).blockers && !Decision(f, w).submissionReady
    ensures Decision(f, w).acceptedRisk == f.storedRisk
  {
    assert Fails(f, w, AcceptedRisk);
    FailureRow(f, w, AcceptedRisk);
    BlockerExact(f, w, AcceptedRisk);
  }

  /** The finding carries an acceptance that this run did not make. */
  ghost predicate Stale(f: Facts, w: Waivers) {
    Decision(f, w).acceptedRisk.Some? && RiskRecord(f).None?
  }

  /** That is so exactly when an earlier run recorded one, and now no pattern matches or the
      severity reaches the floor of the one that does. */
  lemma StaleExact(f: Facts, w: Waivers)
    ensures Stale(f, w) <==> f.storedRisk.Some? && (f.risk.None? || Capped(f.severity, f.risk.value))
  {
  }

  /** What the first run saves is the acceptance it made. */
  function Saved(f: Facts): Facts {
    f.(storedRisk := FinalRisk(f))
  }

  lemma MetPasses(f: Facts, w: Waivers, c: Check)
    requires Asked(f, c) && Met(f, c)
    ensures Row(c, Pass) in Effective(Decision(f, w).checks)
  {
    EffectiveRow(f, w, Row(c, Pass));
  }

  lemma DroppedPasses(f: Facts, w: Waivers)
    requires f.risk.None?
    ensures Row(AcceptedRisk, Pass) in Effective(Decision(f, w).checks)
  {
    MetPasses(f, w, AcceptedRisk);
  }

  /** A recorded acceptance outlives its reason. After the severity rises to the floor, the check
      fails and the record stays. */
  lemma OutlivesSeverity(f: Facts, w: Waivers, severity: string)
    requires f.risk.Some? && !Capped(f.severity, f.risk.value) && Capped(severity, f.risk.value)
    ensures var raised := Saved(f).(severity := severity);
            && Row(AcceptedRisk, Fail) in Effective(Decision(raised, w).checks)
            && Stale(raised, w) && Decision(raised, w).acceptedRisk == f.risk
  {
    CappedRiskFails(Saved(f).(severity := severity), w);
  }

  /** After the pattern leaves the policy, the check passes and the record stays. */
  lemma OutlivesPolicy(f: Facts, w: Waivers)
    requires f.risk.Some? && !Capped(f.severity, f.risk.value)
    ensures var dropped := Saved(f).(risk := None);
            && Row(AcceptedRisk, Pass) in Effective(Decision(dropped, w).checks)
            && Stale(dropped, w) && Decision(dropped, w).acceptedRisk == f.risk
  {
    DroppedPasses(Saved(f).(risk := None), w);
  }

  /** The same finding with no exploitability to answer for, and an acceptance on record. */
  function Accepted(): Facts {
    Unpaid().(exploitability := None, storedRisk := Some(Risk("p", "high")))
  }

  lemma AcceptedMeets(w: Waivers, c: Check)
    ensures !Fails(Accepted(), w, c)
  {
    if c != PaidExploitability && Asked(Unpaid(), c) {
      UnpaidMeets(c);
      assert Met(Accepted(), c) <==> Met(Unpaid(), c);
    }
  }

  /** It is submission-ready, and still recorded as an accepted risk. */
  lemma ReadyThoughAccepted(w: Waivers)
    ensures Decision(Accepted(), w).submissionReady && Decision(Accepted(), w).acceptedRisk == Some(Risk("p", "high"))
    ensures Stale(Accepted(), w)
  {
    forall c: Check ensures !Fails(Accepted(), w, c) { AcceptedMeets(w, c); }
    ReadyExact(Accepted(), w);
  }
}
