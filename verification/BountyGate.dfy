/** The bounty gate: fifteen checks append rows and blockers, waivers answer some of the
    failures, and the rows collapse into a verdict. */
module BountyGate {
  import opened Ordering
  import Materialize
  import Text

  /** The names the check rows carry, in the order the fifteen checks emit them (check 6
      emits four). */
  datatype Check =
    | SecurityConfirmed | SnapshotPinned | InScope | KnownIssue | SeverityFloor
    | EvidenceSufficient | ForkRepro | EconomicQuantified | ExploitContract
    | MaximalExploitation | PriceBasis | ClaimDrift | PreconditionAudit | ForkPoc
    | Immunization | AcceptedRisk | PaidExploitability | AdversarialGame

  datatype Outcome = Pass | Fail | Unknown | HumanReview

  datatype Row = Row(check: Check, result: Outcome)

  datatype Amount = Null | Boolean(truth: bool) | Integer(n: int) | Float(value: real) | NotNumeric

  datatype Ladder = Ladder(state: string, removed: seq<string>)

  datatype Precondition = Precondition(description: string, enforcedByPoc: string)

  datatype Risk = Risk(pattern: string, minSeverity: string)

  /** `paid` is absent when the stored value is not a boolean. */
  datatype Exploitability = Exploitability(paid: Option<bool>, argumentLength: nat)

  datatype Patch = Patch(bypassFound: bool, mutationsTested: int)

  datatype Advisory = BypassFound | TooFewMutations(tested: int) | InCodeAck | Stored(text: string)

  /** One finding under one policy, with the seam results the checks read. */
  datatype Facts = Facts(
    id: string, status: string,
    activeSnapshot: Option<string>, pin: Option<string>,
    contract: string, resolvedPath: string, path: string, scoped: set<string>,
    exclusion: Option<string>, risk: Option<Risk>, severity: string,
    level: string, minLevel: Option<string>,
    requireFork: bool, tier: string,
    requireEconomic: bool, extractable: Amount, minExtractable: Amount,
    requireContract: bool, evidenceTypes: seq<string>,
    ladder: Option<Ladder>, impactKeys: seq<string>, priceResolved: bool,
    drifts: seq<string>, preconditions: seq<Precondition>,
    forkProven: bool,
    patchClause: string, immunity: string, recommendationLength: nat, patch: Option<Patch>,
    exploitability: Option<Exploitability>,
    liveness: bool, deficits: seq<string>,
    inCodeAck: bool, storedAdvisories: seq<Advisory>, storedRisk: Option<Risk>)

  /** The subjects of the recorded waivers, by stage. */
  type Waivers = map<Check, seq<string>>

  // ----- What each check asks ------------------------------------------------------------

  /** The name and the path it resolves to; the recorded path only for a nameless finding. */
  function ScopeTargets(f: Facts): seq<string> {
    if f.contract == "" then (if f.path == "" then [] else [f.path])
    else if f.resolvedPath == "" || f.resolvedPath == f.contract then [f.contract]
    else [f.contract, f.resolvedPath]
  }

  function NeedLevel(f: Facts): string {
    if f.minLevel.Some? then f.minLevel.value else "E4"
  }

  ghost predicate LevelReached(have: string, need: string) {
    exists i, j :: 0 <= j <= i < |Materialize.EVIDENCE_ORDER|
      && Materialize.EVIDENCE_ORDER[i] == have && Materialize.EVIDENCE_ORDER[j] == need
  }

  function AsNumber(a: Amount): Option<real> {
    match a
    case Null => None
    case Boolean(b) => Some(if b then 1.0 else 0.0)
    case Integer(n) => Some(n as real)
    case Float(v) => Some(v)
    case NotNumeric => None
  }

  predicate Quantified(f: Facts) {
    && f.extractable != Null
    && (f.minExtractable != Null ==>
          && AsNumber(f.extractable).Some? && AsNumber(f.minExtractable).Some?
          && AsNumber(f.extractable).value >= AsNumber(f.minExtractable).value)
  }

  /** The evidence types a triager can execute. */
  const RUNNABLE: set<string> := {"unit-test", "foundry-test", "fuzz", "invariant-test", "symbolic-witness",
                                  "fork-test"}

  function Disposition(f: Facts): string {
    match f.ladder
    case None => "missing"
    case Some(l) => if l.state == "" then "open" else l.state
  }

  function Removed(f: Facts): seq<string> {
    if f.ladder.Some? then f.ladder.value.removed else []
  }

  predicate Contains(s: string, t: string) {
    t <= s || (s != "" && Contains(s[1..], t))
  }

  predicate Touches(description: string, removed: string) {
    Contains(description, removed) || Contains(removed, description)
  }

  predicate Assumed(p: Precondition) {
    p.enforcedByPoc == "false"
  }

  ghost predicate Addressed(p: Precondition, removed: seq<string>) {
    exists r :: r in removed && Touches(p.description, r)
  }

  ghost predicate Audited(f: Facts) {
    || Disposition(f) == "waived"
    || forall p :: p in f.preconditions && Assumed(p) ==> Addressed(p, Removed(f))
  }

  predicate UsdKey(k: string) {
    Text.HasSuffix(k, "_usd")
  }

  const MIN_RECOMMENDATION := 40
  const MIN_ARGUMENT := 200

  function PatchMode(f: Facts): string {
    if f.patchClause == "" then "verification" else f.patchClause
  }

  predicate Immune(f: Facts) {
    if PatchMode(f) == "none" then true
    else if PatchMode(f) == "prose" then f.recommendationLength >= MIN_RECOMMENDATION
    else f.immunity == "immunized"
  }

  function SeverityRank(s: string): nat {
    if s == "low" then 1 else if s == "medium" then 2 else if s == "high" then 3 else if s == "critical" then 4 else 0
  }

  /** The finding's severity reaches the floor at which an acceptance stops applying. */
  predicate Capped(severity: string, risk: Risk) {
    risk.minSeverity != "" && severity != "" && SeverityRank(severity) >= SeverityRank(risk.minSeverity)
  }

  /** The smallest integer the decoder keeps as a number; one outside the 64-bit range is kept
      as text, and counts as extractable whatever its sign. */
  const MIN_INT64: int := -0x8000_0000_0000_0000

  predicate Extractable(f: Facts) {
    match f.extractable
    case Integer(n) => n > 0 || n < MIN_INT64
    case Float(v) => v > 0.0
    case _ => false
  }

  predicate Malformed(f: Facts) {
    f.exploitability.Some? && f.exploitability.value.paid.None?
  }

  predicate Answered(f: Facts) {
    match f.exploitability
    case None => !((f.status == "CONFIRMED" || f.status == "CHAIN") && Extractable(f))
    case Some(e) => e.paid.Some? && (e.paid.value ==> e.argumentLength >= MIN_ARGUMENT)
  }

  /** The finding meets the check's own condition. */
  ghost predicate Met(f: Facts, c: Check) {
    match c
    case SecurityConfirmed => f.status == "CONFIRMED"
    case SnapshotPinned => f.activeSnapshot.Some? && f.pin == f.activeSnapshot
    case InScope => exists t :: t in ScopeTargets(f) && t in f.scoped
    case KnownIssue => f.exclusion.Some? ==> f.risk.Some? && f.risk.value.pattern == f.exclusion.value
    case SeverityFloor => f.severity != ""
    case EvidenceSufficient => LevelReached(f.level, NeedLevel(f))
    case ForkRepro => f.tier in ["T3", "T4"]
    case EconomicQuantified => Quantified(f)
    case ExploitContract => exists e :: e in f.evidenceTypes && e in RUNNABLE
    case MaximalExploitation => Disposition(f) in ["complete", "waived"]
    case PriceBasis => f.priceResolved
    case ClaimDrift => f.drifts == []
    case PreconditionAudit => Audited(f)
    case ForkPoc => f.forkProven
    case Immunization => Immune(f)
    case AcceptedRisk => f.risk.None?
    case PaidExploitability => Answered(f)
    case AdversarialGame => f.liveness ==> f.deficits == []
  }

  /** The check emits a row at all. */
  ghost predicate Asked(f: Facts, c: Check) {
    match c
    case ForkRepro => f.requireFork
    case EconomicQuantified => f.requireEconomic
    case ExploitContract => f.requireContract
    case MaximalExploitation => f.status == "CONFIRMED"
    case PriceBasis => exists k :: k in f.impactKeys && UsdKey(k)
    case _ => true
  }

  /** A failure a recorded waiver may answer. */
  predicate Waivable(f: Facts, c: Check) {
    match c
    case ForkPoc => true
    case Immunization => true
    case AcceptedRisk => f.risk.Some? ==> !Capped(f.severity, f.risk.value)
    case PaidExploitability => !Malformed(f)
    case AdversarialGame => true
    case _ => false
  }

  predicate Addresses(subject: string, id: string) {
    subject == "*" || subject == id
  }

  ghost predicate Covered(w: Waivers, c: Check, id: string) {
    c in w && exists s :: s in w[c] && Addresses(s, id)
  }

  /** The row a failing check leaves. */
  function Shortfall(f: Facts, c: Check): Outcome {
    match c
    case SnapshotPinned => if f.activeSnapshot.None? then Unknown else Fail
    case InScope => if ScopeTargets(f) == [] then Unknown else Fail
    case SeverityFloor => HumanReview
    case _ => Fail
  }

  ghost predicate Waived(f: Facts, w: Waivers, c: Check) {
    Waivable(f, c) && Covered(w, c, f.id)
  }

  /** The results one check appends. Two checks keep the failure in front of the waiver's
      pass. */
  ghost function Outcomes(f: Facts, w: Waivers, c: Check): seq<Outcome> {
    if !Asked(f, c) then []
    else if Met(f, c) then [Pass]
    else if !Waived(f, w, c) then [Shortfall(f, c)]
    else if c == PaidExploitability || c == AdversarialGame then [Fail, Pass]
    else [Pass]
  }

  ghost predicate Blocks(f: Facts, w: Waivers, c: Check) {
    Asked(f, c) && !Met(f, c) && !Waived(f, w, c) && !(c == PaidExploitability && Malformed(f))
  }

  function Rows(c: Check, results: seq<Outcome>): (r: seq<Row>)
    ensures |r| == |results| && forall i :: 0 <= i < |r| ==> r[i] == Row(c, results[i])
  {
    if results == [] then [] else [Row(c, results[0])] + Rows(c, results[1..])
  }

  ghost function PartRows(f: Facts, w: Waivers, c: Check): seq<Row> {
    Rows(c, Outcomes(f, w, c))
  }

  ghost function PartBlockers(f: Facts, w: Waivers, c: Check): seq<Check> {
    if Blocks(f, w, c) then [c] else []
  }

  /** The clauses in the order they are evaluated. */
  function EligibilityClauses(done: seq<Check>): seq<Check> {
    ((((done + [SecurityConfirmed]) + [SnapshotPinned]) + [InScope]) + [KnownIssue]) + [SeverityFloor]
  }

  function EvidenceClauses(done: seq<Check>): seq<Check> {
    (((done + [EvidenceSufficient]) + [ForkRepro]) + [EconomicQuantified]) + [ExploitContract]
  }

  function MeasurementClauses(done: seq<Check>): seq<Check> {
    ((((done + [MaximalExploitation]) + [PriceBasis]) + [ClaimDrift]) + [PreconditionAudit]) + [ForkPoc]
  }

  function PolicyClauses(done: seq<Check>): seq<Check> {
    (((done + [Immunization]) + [AcceptedRisk]) + [PaidExploitability]) + [AdversarialGame]
  }

  function Clauses(): seq<Check> {
    PolicyClauses(MeasurementClauses(EvidenceClauses(EligibilityClauses([]))))
  }

  /** The rows and blockers of a list of clauses. */
  ghost function AllRows(f: Facts, w: Waivers, done: seq<Check>): seq<Row> {
    if done == [] then [] else AllRows(f, w, done[..|done| - 1]) + PartRows(f, w, done[|done| - 1])
  }

  ghost function AllBlockers(f: Facts, w: Waivers, done: seq<Check>): seq<Check> {
    if done == [] then [] else AllBlockers(f, w, done[..|done| - 1]) + PartBlockers(f, w, done[|done| - 1])
  }

  lemma Step(f: Facts, w: Waivers, done: seq<Check>, c: Check)
    ensures AllRows(f, w, done + [c]) == AllRows(f, w, done) + PartRows(f, w, c)
    ensures AllBlockers(f, w, done + [c]) == AllBlockers(f, w, done) + PartBlockers(f, w, c)
  {
    assert (done + [c])[..|done|] == done;
  }

  // ----- Two checks that abort the gate ------------------------------------------------------

  ghost predicate UnknownLevel(f: Facts) {
    !Materialize.KnownLevel(f.level) || !Materialize.KnownLevel(NeedLevel(f))
  }

  predicate UnknownPatchClause(f: Facts) {
    f.patchClause !in ["", "verification", "prose", "none"]
  }

  /** The note a recorded patch leaves when the program does not gate on it. */
  function BoundaryAdvisory(f: Facts): seq<Advisory> {
    if f.patch.None? then []
    else if f.patch.value.bypassFound then [BypassFound]
    else if f.patch.value.mutationsTested < 3 then [TooFewMutations(f.patch.value.mutationsTested)]
    else []
  }

  function Advisories(f: Facts): seq<Advisory> {
    if PatchMode(f) == "none" || (PatchMode(f) == "prose" && f.recommendationLength >= MIN_RECOMMENDATION)
    then BoundaryAdvisory(f) else []
  }

  /** The advisories the verdict carries: an acknowledgement in the code replaces the ones stored
      on the finding, and the checks' own come behind. */
  function FinalAdvisories(f: Facts): seq<Advisory> {
    (if f.inCodeAck then [InCodeAck] else f.storedAdvisories) + Advisories(f)
  }

  /** An acceptance that applies is recorded on the finding, waived or not. */
  function RiskRecord(f: Facts): Option<Risk> {
    if f.risk.Some? && !Capped(f.severity, f.risk.value) then f.risk else None
  }

  /** The accepted risk the finding carries afterwards: nothing removes one that an earlier run
      recorded. */
  function FinalRisk(f: Facts): Option<Risk> {
    if RiskRecord(f).Some? then RiskRecord(f) else f.storedRisk
  }

  // ----- The gate -----------------------------------------------------------------------------

  class Gate {
    const facts: Facts
    const waivers: Waivers
    var checks: seq<Row>
    var blockers: seq<Check>
    var advisories: seq<Advisory>
    var acceptedRisk: Option<Risk>

    constructor (facts: Facts, waivers: Waivers)
      ensures this.facts == facts && this.waivers == waivers
      ensures checks == [] && blockers == [] && advisories == [] && acceptedRisk == facts.storedRisk
    {
      this.facts, this.waivers := facts, waivers;
      checks, blockers, advisories, acceptedRisk := [], [], [], facts.storedRisk;
    }

    method Add(c: Check, result: Outcome)
      modifies this`checks
      ensures checks == old(checks) + [Row(c, result)]
    {
      checks := checks + [Row(c, result)];
    }

    method Block(c: Check)
      modifies this`blockers
      ensures blockers == old(blockers) + [c]
    {
      blockers := blockers + [c];
    }

    /** The loop the waivable checks run over the recorded waivers of their stage. */
    method IsCovered(c: Check) returns (covered: bool)
      ensures covered <==> Covered(waivers, c, facts.id)
    {
      var subjects := if c in waivers then waivers[c] else [];
      for i := 0 to |subjects|
        invariant forall s :: s in subjects[..i] ==> !Addresses(s, facts.id)
      {
        assert subjects[..i + 1] == subjects[..i] + [subjects[i]];
        if Addresses(subjects[i], facts.id) {
          return true;
        }
      }
      assert subjects[..|subjects|] == subjects;
      return false;
    }

    method Check1()
      modifies this`checks, this`blockers
      ensures checks == old(checks) + PartRows(facts, waivers, SecurityConfirmed)
      ensures blockers == old(blockers) + PartBlockers(facts, waivers, SecurityConfirmed)
    {
      if facts.status == "CONFIRMED" {
        Add(SecurityConfirmed, Pass);
        return;
      }
      Add(SecurityConfirmed, Fail);
      Block(SecurityConfirmed);
    }

    method Check2()
      modifies this`checks, this`blockers
      ensures checks == old(checks) + PartRows(facts, waivers, SnapshotPinned)
      ensures blockers == old(blockers) + PartBlockers(facts, waivers, SnapshotPinned)
    {
      if facts.activeSnapshot.Some? && facts.pin.Some? && facts.pin.value == facts.activeSnapshot.value {
        Add(SnapshotPinned, Pass);
      } else if facts.activeSnapshot.Some? {
        Add(SnapshotPinned, Fail);
        Block(SnapshotPinned);
      } else {
        Add(SnapshotPinned, Unknown);
        Block(SnapshotPinned);
      }
    }

    method Check3()
      modifies this`checks, this`blockers
      ensures checks == old(checks) + PartRows(facts, waivers, InScope)
      ensures blockers == old(blockers) + PartBlockers(facts, waivers, InScope)
    {
      var targets := ScopeTargets(facts);
      if targets == [] {
        Add(InScope, Unknown);
        Block(InScope);
        return;
      }
      for i := 0 to |targets|
        invariant checks == old(checks) && blockers == old(blockers)
        invariant forall j :: 0 <= j < i ==> targets[j] !in facts.scoped
      {
        if targets[i] in facts.scoped {
          assert Met(facts, InScope);
          Add(InScope, Pass);
          return;
        }
      }
      assert !Met(facts, InScope);
      Add(InScope, Fail);
      Block(InScope);
    }

    method Check4()
      modifies this`checks, this`blockers
      ensures checks == old(checks) + PartRows(facts, waivers, KnownIssue)
      ensures blockers == old(blockers) + PartBlockers(facts, waivers, KnownIssue)
    {
      if facts.exclusion.Some? {
        if facts.risk.Some? && facts.risk.value.pattern == facts.exclusion.value {
          Add(KnownIssue, Pass);
          return;
        }
        Add(KnownIssue, Fail);
        Block(KnownIssue);
        return;
      }
      Add(KnownIssue, Pass);
    }

    method Check5()
      modifies this`checks, this`blockers
      ensures checks == old(checks) + PartRows(facts, waivers, SeverityFloor)
      ensures blockers == old(blockers) + PartBlockers(facts, waivers, SeverityFloor)
    {
      if facts.severity != "" {
        Add(SeverityFloor, Pass);
        return;
      }
      Add(SeverityFloor, HumanReview);
      Block(SeverityFloor);
    }

    /** The evidence floor of check 6; an unknown level aborts the gate. */
    method Check6Evidence() returns (ok: bool)
      modifies this`checks, this`blockers
      ensures ok <==> !UnknownLevel(facts)
      ensures ok ==> checks == old(checks) + PartRows(facts, waivers, EvidenceSufficient)
      ensures ok ==> blockers == old(blockers) + PartBlockers(facts, waivers, EvidenceSufficient)
    {
      var have, haveKnown := Materialize.LevelIndex(facts.level);
      if !haveKnown { return false; }
      var need, needKnown := Materialize.LevelIndex(NeedLevel(facts));
      if !needKnown { return false; }
      ReachedByIndex(facts, have, need);
      if have >= need {
        Add(EvidenceSufficient, Pass);
      } else {
        Add(EvidenceSufficient, Fail);
        Block(EvidenceSufficient);
      }
      return true;
    }

    method Check6Fork()
      modifies this`checks, this`blockers
      ensures checks == old(checks) + PartRows(facts, waivers, ForkRepro)
      ensures blockers == old(blockers) + PartBlockers(facts, waivers, ForkRepro)
    {
      if !facts.requireFork {
        return;
      }
      if facts.tier == "T3" || facts.tier == "T4" {
        Add(ForkRepro, Pass);
        return;
      }
      Add(ForkRepro, Fail);
      Block(ForkRepro);
    }

    method Check6Economic()
      modifies this`checks, this`blockers
      ensures checks == old(checks) + PartRows(facts, waivers, EconomicQuantified)
      ensures blockers == old(blockers) + PartBlockers(facts, waivers, EconomicQuantified)
    {
      if !facts.requireEconomic {
        return;
      }
      var ok := facts.extractable != Null;
      if ok && facts.minExtractable != Null {
        var got, want := AsNumber(facts.extractable), AsNumber(facts.minExtractable);
        ok := got.Some? && want.Some? && got.value >= want.value;
      }
      if ok {
        Add(EconomicQuantified, Pass);
        return;
      }
      Add(EconomicQuantified, Fail);
      Block(EconomicQuantified);
    }

    method Check6ExploitContract()
      modifies this`checks, this`blockers
      ensures checks == old(checks) + PartRows(facts, waivers, ExploitContract)
      ensures blockers == old(blockers) + PartBlockers(facts, waivers, ExploitContract)
    {
      if !facts.requireContract {
        return;
      }
      for i := 0 to |facts.evidenceTypes|
        invariant checks == old(checks) && blockers == old(blockers)
        invariant forall j :: 0 <= j < i ==> facts.evidenceTypes[j] !in RUNNABLE
      {
        if facts.evidenceTypes[i] in RUNNABLE {
          assert Met(facts, ExploitContract);
          Add(ExploitContract, Pass);
          return;
        }
      }
      assert !Met(facts, ExploitContract);
      Add(ExploitContract, Fail);
      Block(ExploitContract);
    }

    method Check7()
      modifies this`checks, this`blockers
      ensures checks == old(checks) + PartRows(facts, waivers, MaximalExploitation)
      ensures blockers == old(blockers) + PartBlockers(facts, waivers, MaximalExploitation)
    {
      if facts.status != "CONFIRMED" {
        return;
      }
      var disposition := Disposition(facts);
      if disposition == "complete" || disposition == "waived" {
        Add(MaximalExploitation, Pass);
      } else {
        Add(MaximalExploitation, Fail);
        Block(MaximalExploitation);
      }
    }

    method Check8()
      modifies this`checks, this`blockers
      ensures checks == old(checks) + PartRows(facts, waivers, PriceBasis)
      ensures blockers == old(blockers) + PartBlockers(facts, waivers, PriceBasis)
    {
      var usdKeys: seq<string> := [];
      for i := 0 to |facts.impactKeys|
        invariant usdKeys == [] <==> forall j :: 0 <= j < i ==> !UsdKey(facts.impactKeys[j])
      {
        if UsdKey(facts.impactKeys[i]) {
          usdKeys := usdKeys + [facts.impactKeys[i]];
        }
      }
      if usdKeys == [] {
        assert !Asked(facts, PriceBasis);
        return;
      }
      assert Asked(facts, PriceBasis);
      if !facts.priceResolved {
        Add(PriceBasis, Fail);
        Block(PriceBasis);
        return;
      }
      Add(PriceBasis, Pass);
    }

    method Check9()
      modifies this`checks, this`blockers
      ensures checks == old(checks) + PartRows(facts, waivers, ClaimDrift)
      ensures blockers == old(blockers) + PartBlockers(facts, waivers, ClaimDrift)
    {
      if |facts.drifts| > 0 {
        Add(ClaimDrift, Fail);
        Block(ClaimDrift);
        return;
      }
      Add(ClaimDrift, Pass);
    }

    method IsAddressed(p: Precondition, removed: seq<string>) returns (closed: bool)
      ensures closed <==> Addressed(p, removed)
    {
      for i := 0 to |removed|
        invariant forall r :: r in removed[..i] ==> !Touches(p.description, r)
      {
        assert removed[..i + 1] == removed[..i] + [removed[i]];
        if Touches(p.description, removed[i]) {
          return true;
        }
      }
      assert removed[..|removed|] == removed;
      return false;
    }

    /** The descriptions of the assumed preconditions no ladder rung removes. */
    method OpenPreconditions() returns (assumed: nat, open: seq<string>)
      ensures assumed == 0 <==> forall p :: p in facts.preconditions ==> !Assumed(p)
      ensures open == [] <==> forall p :: p in facts.preconditions && Assumed(p) ==> Addressed(p, Removed(facts))
    {
      assumed, open := 0, [];
      var all := facts.preconditions;
      for i := 0 to |all|
        invariant assumed == 0 <==> forall p :: p in all[..i] ==> !Assumed(p)
        invariant open == [] <==> forall p :: p in all[..i] && Assumed(p) ==> Addressed(p, Removed(facts))
      {
        assert all[..i + 1] == all[..i] + [all[i]];
        if !Assumed(all[i]) {
          continue;
        }
        assumed := assumed + 1;
        var closed := IsAddressed(all[i], Removed(facts));
        if !closed {
          open := open + [all[i].description];
        }
      }
      assert all[..|all|] == all;
    }

    method Check10()
      modifies this`checks, this`blockers
      ensures checks == old(checks) + PartRows(facts, waivers, PreconditionAudit)
      ensures blockers == old(blockers) + PartBlockers(facts, waivers, PreconditionAudit)
    {
      var assumed, open := OpenPreconditions();
      if assumed == 0 {
        Add(PreconditionAudit, Pass);
        return;
      }
      if Disposition(facts) == "waived" {
        Add(PreconditionAudit, Pass);
        return;
      }
      if |open| > 0 {
        Add(PreconditionAudit, Fail);
        Block(PreconditionAudit);
        return;
      }
      Add(PreconditionAudit, Pass);
    }

    method Check11()
      modifies this`checks, this`blockers
      ensures checks == old(checks) + PartRows(facts, waivers, ForkPoc)
      ensures blockers == old(blockers) + PartBlockers(facts, waivers, ForkPoc)
    {
      if facts.forkProven {
        Add(ForkPoc, Pass);
        return;
      }
      var covered := IsCovered(ForkPoc);
      if covered {
        Add(ForkPoc, Pass);
        return;
      }
      Add(ForkPoc, Fail);
      Block(ForkPoc);
    }

    /** An unknown patch clause aborts the gate. */
    method Check12() returns (ok: bool)
      modifies this`checks, this`blockers, this`advisories
      ensures ok <==> !UnknownPatchClause(facts)
      ensures ok ==> checks == old(checks) + PartRows(facts, waivers, Immunization)
      ensures ok ==> blockers == old(blockers) + PartBlockers(facts, waivers, Immunization)
      ensures ok ==> advisories == old(advisories) + Advisories(facts)
    {
      if UnknownPatchClause(facts) {
        return false;
      }
      var mode := PatchMode(facts);
      if mode == "prose" {
        Check12Prose();
        return true;
      }
      if mode == "none" {
        Add(Immunization, Pass);
        advisories := advisories + BoundaryAdvisory(facts);
        return true;
      }
      if facts.immunity == "immunized" {
        Add(Immunization, Pass);
        return true;
      }
      var covered := IsCovered(Immunization);
      if covered {
        Add(Immunization, Pass);
        return true;
      }
      Add(Immunization, Fail);
      Block(Immunization);
      return true;
    }

    method Check12Prose()
      requires PatchMode(facts) == "prose"
      modifies this`checks, this`blockers, this`advisories
      ensures checks == old(checks) + PartRows(facts, waivers, Immunization)
      ensures blockers == old(blockers) + PartBlockers(facts, waivers, Immunization)
      ensures advisories == old(advisories) + Advisories(facts)
    {
      if facts.recommendationLength >= MIN_RECOMMENDATION {
        Add(Immunization, Pass);
        advisories := advisories + BoundaryAdvisory(facts);
        return;
      }
      var covered := IsCovered(Immunization);
      if covered {
        Add(Immunization, Pass);
        return;
      }
      Add(Immunization, Fail);
      Block(Immunization);
    }

    method Check13()
      modifies this`checks, this`blockers, this`acceptedRisk
      ensures checks == old(checks) + PartRows(facts, waivers, AcceptedRisk)
      ensures blockers == old(blockers) + PartBlockers(facts, waivers, AcceptedRisk)
      ensures acceptedRisk == if RiskRecord(facts).Some? then RiskRecord(facts) else old(acceptedRisk)
    {
      if facts.risk.None? {
        Add(AcceptedRisk, Pass);
        return;
      }
      var risk := facts.risk.value;
      if risk.minSeverity != "" {
        if facts.severity != "" && SeverityRank(facts.severity) >= SeverityRank(risk.minSeverity) {
          Add(AcceptedRisk, Fail);
          Block(AcceptedRisk);
          return;
        }
      }
      acceptedRisk := facts.risk;
      var covered := IsCovered(AcceptedRisk);
      if covered {
        Add(AcceptedRisk, Pass);
        return;
      }
      Add(AcceptedRisk, Fail);
      Block(AcceptedRisk);
    }

    method Check14()
      modifies this`checks, this`blockers
      ensures checks == old(checks) + PartRows(facts, waivers, PaidExploitability)
      ensures blockers == old(blockers) + PartBlockers(facts, waivers, PaidExploitability)
    {
      var covered := IsCovered(PaidExploitability);
      if facts.exploitability.None? {
        if (facts.status == "CONFIRMED" || facts.status == "CHAIN") && Extractable(facts) {
          FailUnlessWaived(PaidExploitability, covered);
          return;
        }
        Add(PaidExploitability, Pass);
        return;
      }
      var e := facts.exploitability.value;
      if e.paid.None? {
        Add(PaidExploitability, Fail);
        return;
      }
      if e.paid.value && e.argumentLength < MIN_ARGUMENT {
        FailUnlessWaived(PaidExploitability, covered);
        return;
      }
      Add(PaidExploitability, Pass);
    }

    /** A fail row, then either the waiver's pass row or a blocker. */
    method FailUnlessWaived(c: Check, covered: bool)
      modifies this`checks, this`blockers
      ensures checks == old(checks) + Rows(c, if covered then [Fail, Pass] else [Fail])
      ensures blockers == old(blockers) + if covered then [] else [c]
    {
      Add(c, Fail);
      if covered {
        Add(c, Pass);
      } else {
        Block(c);
      }
      assert checks == old(checks) + Rows(c, if covered then [Fail, Pass] else [Fail]);
    }

    method Check15()
      modifies this`checks, this`blockers
      ensures checks == old(checks) + PartRows(facts, waivers, AdversarialGame)
      ensures blockers == old(blockers) + PartBlockers(facts, waivers, AdversarialGame)
    {
      if !facts.liveness {
        Add(AdversarialGame, Pass);
        return;
      }
      var covered := IsCovered(AdversarialGame);
      if |facts.deficits| == 0 {
        Add(AdversarialGame, Pass);
        return;
      }
      FailUnlessWaived(AdversarialGame, covered);
    }

    /** The rows and blockers are those of the clauses done so far. */
    ghost predicate At(done: seq<Check>)
      reads this
    {
      checks == AllRows(facts, waivers, done) && blockers == AllBlockers(facts, waivers, done)
    }

    method RunEligibility(ghost done: seq<Check>)
      requires At(done)
      modifies this`checks, this`blockers
      ensures At(EligibilityClauses(done))
    {
      ghost var d: seq<Check> := done;
      Step(facts, waivers, d, SecurityConfirmed);
      Check1();
      d := d + [SecurityConfirmed];
      Step(facts, waivers, d, SnapshotPinned);
      Check2();
      d := d + [SnapshotPinned];
      Step(facts, waivers, d, InScope);
      Check3();
      d := d + [InScope];
      Step(facts, waivers, d, KnownIssue);
      Check4();
      d := d + [KnownIssue];
      Step(facts, waivers, d, SeverityFloor);
      Check5();
    }

    method Check6(ghost done: seq<Check>) returns (ok: bool)
      requires At(done)
      modifies this`checks, this`blockers
      ensures ok <==> !UnknownLevel(facts)
      ensures ok ==> At(EvidenceClauses(done))
    {
      ghost var d: seq<Check> := done;
      Step(facts, waivers, d, EvidenceSufficient);
      ok := Check6Evidence();
      if !ok { return; }
      d := d + [EvidenceSufficient];
      Step(facts, waivers, d, ForkRepro);
      Check6Fork();
      d := d + [ForkRepro];
      Step(facts, waivers, d, EconomicQuantified);
      Check6Economic();
      d := d + [EconomicQuantified];
      Step(facts, waivers, d, ExploitContract);
      Check6ExploitContract();
    }

    method RunMeasurement(ghost done: seq<Check>)
      requires At(done)
      modifies this`checks, this`blockers
      ensures At(MeasurementClauses(done))
    {
      ghost var d: seq<Check> := done;
      Step(facts, waivers, d, MaximalExploitation);
      Check7();
      d := d + [MaximalExploitation];
      Step(facts, waivers, d, PriceBasis);
      Check8();
      d := d + [PriceBasis];
      Step(facts, waivers, d, ClaimDrift);
      Check9();
      d := d + [ClaimDrift];
      Step(facts, waivers, d, PreconditionAudit);
      Check10();
      d := d + [PreconditionAudit];
      Step(facts, waivers, d, ForkPoc);
      Check11();
    }

    method RunPolicy(ghost done: seq<Check>) returns (ok: bool)
      requires At(done)
      modifies this`checks, this`blockers, this`advisories, this`acceptedRisk
      ensures ok <==> !UnknownPatchClause(facts)
      ensures ok ==> At(PolicyClauses(done)) && advisories == old(advisories) + Advisories(facts)
      ensures ok ==> acceptedRisk == if RiskRecord(facts).Some? then RiskRecord(facts) else old(acceptedRisk)
    {
      Step(facts, waivers, done, Immunization);
      ok := Check12();
      if !ok { return; }
      RunAnswers(done + [Immunization]);
    }

    method RunAnswers(ghost done: seq<Check>)
      requires At(done)
      modifies this`checks, this`blockers, this`acceptedRisk
      ensures At(((done + [AcceptedRisk]) + [PaidExploitability]) + [AdversarialGame])
      ensures acceptedRisk == if RiskRecord(facts).Some? then RiskRecord(facts) else old(acceptedRisk)
    {
      Step(facts, waivers, done, AcceptedRisk);
      Check13();
      RunArguments(done + [AcceptedRisk]);
    }

    method RunArguments(ghost done: seq<Check>)
      requires At(done)
      modifies this`checks, this`blockers
      ensures At((done + [PaidExploitability]) + [AdversarialGame])
    {
      Step(facts, waivers, done, PaidExploitability);
      Check14();
      Step(facts, waivers, done + [PaidExploitability], AdversarialGame);
      Check15();
    }

    method RunClaims(ghost done: seq<Check>) returns (ok: bool)
      requires At(done)
      modifies this`checks, this`blockers
      ensures ok <==> !UnknownLevel(facts)
      ensures ok ==> At(MeasurementClauses(EvidenceClauses(EligibilityClauses(done))))
    {
      RunEligibility(done);
      ghost var d := EligibilityClauses(done);
      ok := Check6(d);
      if !ok { return; }
      RunMeasurement(EvidenceClauses(d));
    }

    /** `run`: the fifteen checks in order; one that errs stops the gate. */
    method Run() returns (ok: bool)
      requires checks == [] && blockers == [] && advisories == [] && acceptedRisk == facts.storedRisk
      modifies this`checks, this`blockers, this`advisories, this`acceptedRisk
      ensures ok <==> !UnknownLevel(facts) && !UnknownPatchClause(facts)
      ensures ok ==> At(Clauses()) && advisories == Advisories(facts) && acceptedRisk == FinalRisk(facts)
    {
      ok := RunClaims([]);
      if !ok { return; }
      ghost var d := MeasurementClauses(EvidenceClauses(EligibilityClauses([])));
      ok := RunPolicy(d);
      assert Clauses() == PolicyClauses(d);
      assert [] + Advisories(facts) == Advisories(facts);
    }
  }

  // ----- Collapsing the rows --------------------------------------------------------------------

  /** A later row carries the same check name. */
  ghost predicate Superseded(rows: seq<Row>, i: nat) {
    exists j :: i < j < |rows| && rows[j].check == rows[i].check
  }

  /** The rows among the first `n` that no later row of the whole list supersedes. */
  ghost function Kept(rows: seq<Row>, n: nat): seq<Row>
    requires n <= |rows|
  {
    if n == 0 then []
    else if Superseded(rows, n - 1) then Kept(rows, n - 1)
    else Kept(rows, n - 1) + [rows[n - 1]]
  }

  ghost function Effective(rows: seq<Row>): seq<Row> {
    Kept(rows, |rows|)
  }

  function Names(rows: seq<Row>): (r: seq<Check>)
    ensures |r| == |rows| && forall i :: 0 <= i < |r| ==> r[i] == rows[i].check
  {
    if rows == [] then [] else Names(rows[..|rows| - 1]) + [rows[|rows| - 1].check]
  }

  lemma {:induction false} AllKept(rows: seq<Row>, n: nat)
    requires n <= |rows| && Distinct(Names(rows))
    ensures Kept(rows, n) == rows[..n]
  {
    if n > 0 {
      AllKept(rows, n - 1);
      assert !Superseded(rows, n - 1) by {
        forall j | n - 1 < j < |rows|
          ensures rows[j].check != rows[n - 1].check
        {
          assert Names(rows)[j] != Names(rows)[n - 1];
        }
      }
      assert rows[..n] == rows[..n - 1] + [rows[n - 1]];
    }
  }

  ghost predicate LastIndexes(rows: seq<Row>, n: nat, last: map<Check, nat>)
    requires n <= |rows|
  {
    && (forall i :: 0 <= i < n ==> rows[i].check in last && i <= last[rows[i].check])
    && (forall c :: c in last ==> last[c] < n && rows[last[c]].check == c)
  }

  lemma KeysAreNames(rows: seq<Row>, last: map<Check, nat>)
    requires LastIndexes(rows, |rows|, last) && |last| == |rows|
    ensures Distinct(Names(rows))
  {
    assert last.Keys == SetOf(Names(rows)) by {
      forall c | c in last ensures c in Names(rows) { assert Names(rows)[last[c]] == c; }
    }
    DistinctByCount(Names(rows));
  }

  /** `effectiveChecks`: one row per check name, the last one, at its own position. */
  method EffectiveChecks(rows: seq<Row>) returns (out: seq<Row>)
    ensures out == Effective(rows)
  {
    if |rows| == 0 {
      return rows;
    }
    var last: map<Check, nat> := map[];
    for i := 0 to |rows|
      invariant LastIndexes(rows, i, last)
    {
      last := last[rows[i].check := i];
    }
    if |last| == |rows| {
      KeysAreNames(rows, last);
      AllKept(rows, |rows|);
      return rows;
    }
    out := [];
    for i := 0 to |rows|
      invariant out == Kept(rows, i)
    {
      if last[rows[i].check] == i {
        out := out + [rows[i]];
      } else {
        assert rows[last[rows[i].check]].check == rows[i].check;
      }
    }
  }

  // ----- The verdict ------------------------------------------------------------------------------

  datatype Verdict = Verdict(eligible: bool, submissionReady: bool, blockers: seq<Check>, checks: seq<Row>,
                             advisories: seq<Advisory>, acceptedRisk: Option<Risk>)

  const ELIGIBILITY: set<Check> := {SecurityConfirmed, InScope, KnownIssue}

  ghost predicate Eligible(rows: seq<Row>) {
    forall r :: r in Effective(rows) && r.check in ELIGIBILITY ==> r.result != Fail
  }

  ghost predicate Ready(rows: seq<Row>, blockers: seq<Check>) {
    blockers == [] && forall r :: r in Effective(rows) ==> r.result == Pass
  }

  ghost predicate Aborts(f: Facts) {
    UnknownLevel(f) || UnknownPatchClause(f)
  }

  /** The verdict of the gate on one finding. */
  ghost function Decision(f: Facts, w: Waivers): Verdict {
    var rows, blockers := AllRows(f, w, Clauses()), AllBlockers(f, w, Clauses());
    Verdict(Eligible(rows), Ready(rows, blockers), blockers, rows, FinalAdvisories(f), FinalRisk(f))
  }

  method Judge(rows: seq<Row>, blockers: seq<Check>) returns (eligible: bool, ready: bool)
    ensures eligible <==> Eligible(rows)
    ensures ready <==> Ready(rows, blockers)
  {
    var effective := EffectiveChecks(rows);
    eligible := true;
    for i := 0 to |effective|
      invariant eligible <==> forall r :: r in effective[..i] && r.check in ELIGIBILITY ==> r.result != Fail
    {
      assert effective[..i + 1] == effective[..i] + [effective[i]];
      if effective[i].result != Fail {
        continue;
      }
      if effective[i].check in ELIGIBILITY {
        eligible := false;
      }
    }
    assert effective[..|effective|] == effective;
    ready := blockers == [];
    for i := 0 to |effective|
      invariant ready <==> blockers == []
      invariant forall r :: r in effective[..i] ==> r.result == Pass
    {
      assert effective[..i + 1] == effective[..i] + [effective[i]];
      if effective[i].result != Pass {
        ready := false;
        break;
      }
    }
  }

  /** `EvaluateBountyGate`. */
  method EvaluateBountyGate(f: Facts, w: Waivers) returns (verdict: Option<Verdict>)
    ensures verdict == if Aborts(f) then None else Some(Decision(f, w))
  {
    var g := new Gate(f, w);
    var ok := g.Run();
    if !ok {
      return None;
    }
    var eligible, ready := Judge(g.checks, g.blockers);
    var advisories := f.storedAdvisories;
    if f.inCodeAck {
      advisories := [InCodeAck];
    }
    assert advisories + [] == advisories;
    if g.advisories != [] {
      advisories := advisories + g.advisories;
    }
    return Some(Verdict(eligible, ready, g.blockers, g.checks, advisories, g.acceptedRisk));
  }

  lemma ReachedByIndex(f: Facts, have: nat, need: nat)
    requires have < |Materialize.EVIDENCE_ORDER| && Materialize.EVIDENCE_ORDER[have] == f.level
    requires need < |Materialize.EVIDENCE_ORDER| && Materialize.EVIDENCE_ORDER[need] == NeedLevel(f)
    ensures Met(f, EvidenceSufficient) <==> have >= need
  {
    if LevelReached(f.level, NeedLevel(f)) {
      var i, j :| 0 <= j <= i < |Materialize.EVIDENCE_ORDER|
                  && Materialize.EVIDENCE_ORDER[i] == f.level && Materialize.EVIDENCE_ORDER[j] == NeedLevel(f);
      Materialize.LevelsDiffer(i, have);
      Materialize.LevelsDiffer(j, need);
    }
  }
}
