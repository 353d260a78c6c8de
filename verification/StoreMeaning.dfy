/** What a materialization accepts and stores, said of the finding records alone. */
module StoreMeaning {
  import opened Ordering
  import opened Findings
  import Capabilities
  import opened Materialize
  import MaterializeTheorems
  import opened SearchMeaning
  import DerivedTheorems

  // ----- The evidence ladder -------------------------------------------------------------------

  /** The evidence levels in increasing order. */
  predicate Level(s: string, n: nat) {
    || (n == 0 && s == "E0") || (n == 1 && s == "E1") || (n == 2 && s == "E2") || (n == 3 && s == "E3")
    || (n == 4 && s == "E4") || (n == 5 && s == "E5") || (n == 6 && s == "E6") || (n == 7 && s == "E7")
  }

  lemma LevelExact(s: string, n: nat)
    ensures Level(s, n) <==> n < |EVIDENCE_ORDER| && EVIDENCE_ORDER[n] == s
  {
  }

  lemma KnownExact(level: string)
    ensures KnownLevel(level) <==> exists n: nat :: Level(level, n)
  {
    forall n: nat ensures Level(level, n) <==> n < |EVIDENCE_ORDER| && EVIDENCE_ORDER[n] == level {
      LevelExact(level, n);
    }
  }

  ghost predicate Holds(f: Finding, n: nat) {
    exists s :: s in f.evidence && Level(s, n)
  }

  /** The finding's strongest level, the lowest one standing in for none. */
  ghost predicate Strongest(f: Finding, n: nat) {
    n <= 7 && (n == 0 || Holds(f, n)) && forall m: nat :: m > n ==> !Holds(f, m)
  }

  lemma HoldsExact(f: Finding, n: nat)
    ensures Holds(f, n) <==> n < |EVIDENCE_ORDER| && EVIDENCE_ORDER[n] in f.evidence
  {
    forall s: string ensures Level(s, n) <==> n < |EVIDENCE_ORDER| && EVIDENCE_ORDER[n] == s { LevelExact(s, n); }
  }

  lemma StrongestExact(f: Finding, n: nat)
    ensures Strongest(f, n) <==> IsBest(f.evidence, n)
  {
    assert |EVIDENCE_ORDER| == 8;
    forall m: nat ensures Holds(f, m) <==> m < |EVIDENCE_ORDER| && EVIDENCE_ORDER[m] in f.evidence { HoldsExact(f, m); }
  }

  ghost predicate LevelsNamed(fs: seq<Finding>) {
    forall f, s :: f in fs && s in f.evidence ==> exists n: nat :: Level(s, n)
  }

  lemma LevelsNamedExact(fs: seq<Finding>)
    ensures LevelsKnown(fs) <==> LevelsNamed(fs)
  {
    forall s: string ensures KnownLevel(s) <==> exists n: nat :: Level(s, n) { KnownExact(s); }
  }

  // ----- Members ----------------------------------------------------------------------------------

  /** The first finding of the store with the id. */
  ghost predicate Picked(findings: seq<Finding>, id: string, f: Finding) {
    exists k: nat :: k < |findings| && findings[k] == f && f.id == id && forall j :: 0 <= j < k ==> findings[j].id != id
  }

  ghost predicate Picks(findings: seq<Finding>, ids: seq<string>, fs: seq<Finding>) {
    |fs| == |ids| && forall i :: 0 <= i < |ids| ==> Picked(findings, ids[i], fs[i])
  }

  lemma {:induction false} PickExact(findings: seq<Finding>, id: string, f: Finding)
    ensures Picked(findings, id, f) <==> Find(findings, id) == Some(f)
  {
    if findings != [] {
      if findings[0].id == id {
        assert findings[0] == f ==> Picked(findings, id, findings[0]);
        if Picked(findings, id, f) {
          var k: nat :| k < |findings| && findings[k] == f && forall j :: 0 <= j < k ==> findings[j].id != id;
          assert k == 0;
        }
      } else {
        PickExact(findings[1..], id, f);
        PickLater(findings, id, f);
      }
    }
  }

  lemma PickLater(findings: seq<Finding>, id: string, f: Finding)
    requires findings != [] && findings[0].id != id
    ensures Picked(findings, id, f) <==> Picked(findings[1..], id, f)
  {
    var rest := findings[1..];
    if Picked(findings, id, f) {
      var k: nat :| k < |findings| && findings[k] == f && f.id == id && forall j :: 0 <= j < k ==> findings[j].id != id;
      assert rest[k - 1] == f;
      forall j | 0 <= j < k - 1 ensures rest[j].id != id { assert rest[j] == findings[j + 1]; }
    }
    if Picked(rest, id, f) {
      var k: nat :| k < |rest| && rest[k] == f && f.id == id && forall j :: 0 <= j < k ==> rest[j].id != id;
      assert findings[k + 1] == f;
      forall j | 0 <= j < k + 1 ensures findings[j].id != id { assert j > 0 ==> findings[j] == rest[j - 1]; }
    }
  }

  lemma PicksExact(findings: seq<Finding>, ids: seq<string>, fs: seq<Finding>)
    requires Picks(findings, ids, fs)
    ensures AllFound(findings, ids) && Found(findings, ids) == fs
  {
    forall i | 0 <= i < |ids| ensures Find(findings, ids[i]) == Some(fs[i]) { PickExact(findings, ids[i], fs[i]); }
  }

  // ----- What is accepted ------------------------------------------------------------------------

  ghost predicate Passing(a: Finding, b: Finding, cap: string) {
    Spells(a.granted, cap) && Spells(b.required, cap)
  }

  ghost predicate Passes(a: Finding, b: Finding) {
    exists cap :: Passing(a, b, cap)
  }

  /** Each member grants something the next one requires. */
  ghost predicate Handed(fs: seq<Finding>) {
    forall i :: 0 <= i < |fs| - 1 ==> Passes(fs[i], fs[i + 1])
  }

  /** A proven chain's members are pinned to one snapshot, an unproven one's each to some. */
  ghost predicate PinsAgree(fs: seq<Finding>, unproven: bool) {
    if unproven then forall f :: f in fs ==> f.pin.Some?
    else exists pin :: forall f :: f in fs ==> f.pin == Some(pin)
  }

  predicate BreakdownSound(b: Breakdown) {
    || b.NoBreakdown?
    || (b.Fields? && forall e :: e in b.entries ==>
          && (e.0 == "required_usd" || e.0 == "recoverable_usd" || e.0 == "irrecoverable_cost_usd"
              || e.0 == "atomic_usd" || e.0 == "borrowable_usd" || e.0 == "net_at_risk_usd")
          && (e.1 == Null || (e.1.Amount? && e.1.usd >= 0.0)))
  }

  /** The id a claim names as granting its terminal, the last member's for want of one. */
  function Via(claim: Claim, ids: seq<string>): string
    requires ids != []
  {
    if claim.via.Some? then claim.via.value else ids[|ids| - 1]
  }

  /** A claim names a member that grants its label, and a sound breakdown. */
  ghost predicate Fits(findings: seq<Finding>, ids: seq<string>, claim: Claim)
    requires ids != []
  {
    && claim.capability != "" && Via(claim, ids) in ids && BreakdownSound(claim.breakdown)
    && exists f :: Picked(findings, Via(claim, ids), f) && Spells(f.granted, claim.capability)
  }

  lemma OverlapExact(a: Finding, b: Finding, cap: string)
    ensures cap in Overlap(a, b) <==> Passing(a, b, cap)
  {
    SpellsExact(a, cap);
    SpellsExact(b, cap);
  }

  lemma HandedExact(fs: seq<Finding>)
    ensures Continuous(fs) <==> Handed(fs)
  {
    forall i | 0 <= i < |fs| - 1 ensures Overlap(fs[i], fs[i + 1]) != {} <==> Passes(fs[i], fs[i + 1]) {
      OverlapSome(fs[i], fs[i + 1]);
    }
  }

  lemma OverlapSome(a: Finding, b: Finding)
    ensures Overlap(a, b) != {} <==> Passes(a, b)
  {
    forall cap ensures cap in Overlap(a, b) <==> Passing(a, b, cap) { OverlapExact(a, b, cap); }
  }

  lemma PinsExact(fs: seq<Finding>, unproven: bool)
    ensures PinsAgree(fs, unproven) <==> if unproven then AllPinned(fs) else OnePin(fs)
  {
    if OnePin(fs) {
      var pin :| PinnedTo(fs, pin);
      assert forall f :: f in fs ==> f.pin == Some(pin);
    }
    if !unproven && PinsAgree(fs, unproven) {
      var pin :| forall f :: f in fs ==> f.pin == Some(pin);
      assert PinnedTo(fs, pin);
    }
  }

  lemma BreakdownExact(b: Breakdown)
    ensures BreakdownOk(b) <==> BreakdownSound(b)
  {
    forall name: string
      ensures name in CAPITAL_FIELDS || name == "net_at_risk_usd" <==>
              name == "required_usd" || name == "recoverable_usd" || name == "irrecoverable_cost_usd"
              || name == "atomic_usd" || name == "borrowable_usd" || name == "net_at_risk_usd"
    {
    }
  }

  lemma FitsExact(findings: seq<Finding>, ids: seq<string>, fs: seq<Finding>, claim: Claim)
    requires ids != [] && Picks(findings, ids, fs)
    ensures ClaimOk(findings, ids, fs, claim) <==> Fits(findings, ids, claim)
  {
    BreakdownExact(claim.breakdown);
    var last := |ids| - 1;
    assert Picked(findings, ids[last], fs[last]);
    assert ViaOf(claim, fs) == Via(claim, ids);
    forall f: Finding
      ensures Picked(findings, Via(claim, ids), f) <==> Find(findings, Via(claim, ids)) == Some(f)
      ensures claim.capability in Grants(f) <==> Spells(f.granted, claim.capability)
    {
      PickExact(findings, Via(claim, ids), f);
      SpellsExact(f, claim.capability);
    }
  }

  lemma ChainGateMeans(fs: seq<Finding>, unproven: bool)
    ensures ChainGate(fs, unproven) ==
            if !unproven && exists f :: f in fs && !Proven(f) then Some(NotConfirmed)
            else if !PinsAgree(fs, unproven) then Some(BadPins)
            else if !Handed(fs) then Some(CapabilityGap)
            else if !LevelsNamed(fs) then Some(UnknownLevel)
            else None
  {
    MemberGateMeans(fs, unproven);
    HandedExact(fs);
    LevelsNamedExact(fs);
  }

  lemma AnnotationMeans(s: State, req: Request, fs: seq<Finding>)
    requires WellKeyed(s.findings) && |req.members| >= 2 && Picks(s.findings, req.members, fs)
    ensures AnnotationOk(s.findings, req.members, fs, ClaimUsed(s.findings, req)) <==>
            (req.claim.Some? ==> Fits(s.findings, req.members, req.claim.value))
  {
    PicksExact(s.findings, req.members, fs);
    if req.claim.Some? {
      FitsExact(s.findings, req.members, fs, req.claim.value);
    } else {
      MaterializeTheorems.DerivedClaimOk(s.findings, req.members);
    }
  }

  lemma GateParts(s: State, req: Request, fs: seq<Finding>)
    requires |req.members| >= 2 && AllFound(s.findings, req.members) && Found(s.findings, req.members) == fs
    ensures Gate(s, req) ==
            if ChainGate(fs, req.unproven).Some? then ChainGate(fs, req.unproven)
            else if IsDuplicate(s.chains, ChainSignature(req.members)) then Some(Duplicate)
            else if !AnnotationOk(s.findings, req.members, fs, ClaimUsed(s.findings, req)) then Some(BadTerminal)
            else None
  {
  }

  /** The first gate that fails, over the members the request names. */
  lemma GateMeans(s: State, req: Request, fs: seq<Finding>)
    requires WellKeyed(s.findings) && Picks(s.findings, req.members, fs)
    ensures |req.members| < 2 ==> Gate(s, req) == Some(TooFew)
    ensures |req.members| >= 2 ==>
              Gate(s, req) ==
              if !req.unproven && exists f :: f in fs && !Proven(f) then Some(NotConfirmed)
              else if !PinsAgree(fs, req.unproven) then Some(BadPins)
              else if !Handed(fs) then Some(CapabilityGap)
              else if !LevelsNamed(fs) then Some(UnknownLevel)
              else if exists c :: c in s.chains && c.signature == ChainSignature(req.members) then Some(Duplicate)
              else if req.claim.Some? && !Fits(s.findings, req.members, req.claim.value) then Some(BadTerminal)
              else None
  {
    if |req.members| >= 2 {
      PicksExact(s.findings, req.members, fs);
      ChainGateMeans(fs, req.unproven);
      AnnotationMeans(s, req, fs);
      GateParts(s, req, fs);
    }
  }

  lemma MemberGateMeans(fs: seq<Finding>, unproven: bool)
    ensures MemberGate(fs, unproven) ==
            if !unproven && exists f :: f in fs && !Proven(f) then Some(NotConfirmed)
            else if !PinsAgree(fs, unproven) then Some(BadPins) else None
  {
    PinsExact(fs, unproven);
    forall f: Finding ensures Confirmed(f) <==> Proven(f) { OpenExact(f); }
  }

  /** A member that no finding of the store has the id of. */
  lemma MissingRefused(s: State, req: Request, id: string)
    requires |req.members| >= 2 && id in req.members && forall f :: f in s.findings ==> f.id != id
    ensures Gate(s, req) == Some(NoSuchFinding)
  {
    MaterializeTheorems.FindExact(s.findings, id);
    var i :| 0 <= i < |req.members| && req.members[i] == id;
  }

  // ----- What is stored -----------------------------------------------------------------------------

  /** The link carries the least label the two members share; in an unproven chain, also the first
      member's strongest level. */
  ghost predicate Ties(l: Link, a: Finding, b: Finding, unproven: bool) {
    && l.from == a.id && l.to == b.id
    && Passing(a, b, l.granted) && (forall cap :: Passing(a, b, cap) ==> Leq(l.granted, cap))
    && (!unproven ==> l.evidence == None)
    && (unproven ==> l.evidence.Some? && exists n: nat :: Level(l.evidence.value, n) && Strongest(a, n))
  }

  lemma TiesMean(l: Link, a: Finding, b: Finding, unproven: bool)
    ensures LinkBetween(l, a, b, unproven) <==> Ties(l, a, b, unproven)
  {
    forall cap ensures cap in Overlap(a, b) <==> Passing(a, b, cap) { OverlapExact(a, b, cap); }
    EvidenceMeans(l, a);
  }

  lemma EvidenceMeans(l: Link, a: Finding)
    ensures (exists i: nat :: IsBest(a.evidence, i) && l.evidence == Some(EVIDENCE_ORDER[i])) <==>
            l.evidence.Some? && exists n: nat :: Level(l.evidence.value, n) && Strongest(a, n)
  {
    forall n: nat ensures Strongest(a, n) <==> IsBest(a.evidence, n) { StrongestExact(a, n); }
    if l.evidence.Some? {
      forall n: nat
        ensures Level(l.evidence.value, n) <==> n < |EVIDENCE_ORDER| && EVIDENCE_ORDER[n] == l.evidence.value
      {
        LevelExact(l.evidence.value, n);
      }
    }
  }

  /** The weakest of the members' strongest levels. */
  ghost predicate Weakest(fs: seq<Finding>, level: string) {
    exists n: nat :: Level(level, n) && (exists f :: f in fs && Strongest(f, n))
                     && forall f, m: nat :: f in fs && Strongest(f, m) ==> n <= m
  }

  lemma FloorMeans(fs: seq<Finding>, level: string)
    ensures FloorIs(fs, level) <==> Weakest(fs, level)
  {
    forall f: Finding, n: nat ensures Strongest(f, n) <==> IsBest(f.evidence, n) { StrongestExact(f, n); }
    forall n: nat ensures Level(level, n) <==> n < |EVIDENCE_ORDER| && EVIDENCE_ORDER[n] == level {
      LevelExact(level, n);
    }
    if FloorIs(fs, level) {
      var i: nat :| IsFloor(fs, i) && level == EVIDENCE_ORDER[i];
      assert Level(level, i);
    }
    if Weakest(fs, level) {
      var n: nat :| Level(level, n) && (exists f :: f in fs && Strongest(f, n))
                    && forall f, m: nat :: f in fs && Strongest(f, m) ==> n <= m;
      assert IsFloor(fs, n);
    }
  }

  lemma LinksMean(links: seq<Link>, fs: seq<Finding>, unproven: bool)
    requires fs != [] && LinksMatch(links, fs, unproven)
    ensures |links| == |fs| - 1 && forall i :: 0 <= i < |links| ==> Ties(links[i], fs[i], fs[i + 1], unproven)
  {
    forall i | 0 <= i < |links| ensures Ties(links[i], fs[i], fs[i + 1], unproven) {
      TiesMean(links[i], fs[i], fs[i + 1], unproven);
    }
  }

  /** What the stored chain records: the ids, the links between neighbours, the weakest member's
      strongest level, and the terminal that was claimed. */
  lemma DocMeans(s: State, req: Request, fs: seq<Finding>, doc: ChainDoc)
    requires Gate(s, req) == None && IsDoc(s, req, doc) && Picks(s.findings, req.members, fs)
    ensures doc.id == req.chainId && doc.members == req.members && doc.unproven == req.unproven
    ensures |doc.links| == |fs| - 1
    ensures forall i :: 0 <= i < |doc.links| ==> Ties(doc.links[i], fs[i], fs[i + 1], req.unproven)
    ensures Weakest(fs, doc.floor)
    ensures req.claim.Some? ==>
              var c := req.claim.value;
              doc.terminal == Some(TerminalDoc(c.capability, Via(c, req.members), c.total, c.breakdown))
    ensures req.claim.None? && !req.unproven ==> doc.terminal == None
  {
    PicksExact(s.findings, req.members, fs);
    assert |req.members| >= 2;
    LinksMean(doc.links, fs, req.unproven);
    FloorMeans(fs, doc.floor);
    LastPicked(s.findings, req.members, fs);
  }

  lemma LastPicked(findings: seq<Finding>, ids: seq<string>, fs: seq<Finding>)
    requires ids != [] && Picks(findings, ids, fs)
    ensures fs[|fs| - 1].id == ids[|ids| - 1]
  {
    assert Picked(findings, ids[|ids| - 1], fs[|fs| - 1]);
  }

  /** An unproven chain stored without a claim carries a terminal exactly when its members derive one,
      and then that of a cheapest order. */
  lemma DerivedDocMeans(s: State, req: Request, doc: ChainDoc)
    requires WellKeyed(s.findings) && Gate(s, req) == None && IsDoc(s, req, doc)
    requires req.unproven && req.claim.None? && Distinct(req.members)
    requires |DerivedTheorems.Found5(s.findings, |req.members|)| <= 500
    ensures doc.terminal.Some? <==> exists gs :: DerivedTheorems.Derives(s.findings, req.members, gs)
    ensures doc.terminal.Some? ==>
              exists gs :: DerivedTheorems.Cheapest(s.findings, req.members, gs) && Recorded(doc.terminal.value, gs)
  {
    DerivedTheorems.DerivedExact(s.findings, req.members);
    var claim := DerivedClaim(s.findings, req.members);
    if claim.Some? {
      var gs :| DerivedTheorems.Cheapest(s.findings, req.members, gs) && DerivedTheorems.Claims(claim.value, gs);
      assert Recorded(doc.terminal.value, gs);
    }
  }

  ghost predicate Recorded(doc: TerminalDoc, fs: seq<Finding>) {
    fs != [] && doc.via == fs[|fs| - 1].id
    && DerivedTheorems.Claims(Claim(doc.capability, Some(doc.via), doc.total, doc.breakdown), fs)
  }

  // ----- The super-finding ---------------------------------------------------------------------------

  /** The blast radii in increasing order. */
  predicate Radius(b: string, n: nat) {
    || (n == 0 && b == "single-user") || (n == 1 && b == "subset-of-users") || (n == 2 && b == "all-users")
    || (n == 3 && b == "protocol-solvency") || (n == 4 && b == "bridge-canonical")
  }

  ghost predicate Claimed(fs: seq<Finding>, n: nat) {
    exists f :: f in fs && Radius(f.blastRadius, n)
  }

  lemma RankUp(b: string, i: nat)
    requires i < 5
    ensures BlastRankFrom(b, i) == if BLAST_ORDER[i] == b then i else BlastRankFrom(b, i + 1)
  {
  }

  lemma RadiusExact(b: string, n: nat)
    ensures Radius(b, n) <==> BlastRank(b) == n
    ensures -1 <= BlastRank(b) < 5
  {
    assert |BLAST_ORDER| == 5;
    RankUp(b, 4);
    RankUp(b, 3);
    RankUp(b, 2);
    RankUp(b, 1);
    RankUp(b, 0);
  }

  /** `n` is the widest radius of the ladder that some member claims. */
  ghost predicate WidestClaim(fs: seq<Finding>, n: nat) {
    Claimed(fs, n) && forall m: nat :: m > n ==> !Claimed(fs, m)
  }

  lemma WidestMeans(fs: seq<Finding>, b: string)
    requires Widest(fs, b)
    ensures b == "" <==> forall n: nat :: !Claimed(fs, n)
    ensures forall n: nat :: WidestClaim(fs, n) ==> Radius(b, n)
  {
    RadiiExact();
    if b == "" {
      forall n: nat ensures !Claimed(fs, n) {
        forall f | f in fs ensures !Radius(f.blastRadius, n) {
          assert f.blastRadius == "" || BlastRank(f.blastRadius) < 0;
        }
      }
    } else {
      var f :| f in fs && f.blastRadius == b;
      var k: nat := BlastRank(b);
      assert Radius(f.blastRadius, k);
      assert Claimed(fs, k);
      forall n: nat | WidestClaim(fs, n) ensures Radius(b, n) {
        var g :| g in fs && Radius(g.blastRadius, n);
        assert BlastRank(g.blastRadius) <= BlastRank(b);
      }
    }
  }

  lemma RadiiExact()
    ensures forall b, n: nat :: Radius(b, n) <==> BlastRank(b) == n
    ensures forall n: nat :: !Radius("", n)
  {
    forall b, n: nat ensures Radius(b, n) <==> BlastRank(b) == n { RadiusExact(b, n); }
  }

  lemma LivenessMeans(b: string)
    ensures forall n: nat :: Radius(b, n) && n >= 3 ==> LivenessRadius(b) == b
    ensures (forall n: nat :: Radius(b, n) ==> n < 3) ==> LivenessRadius(b) == "protocol-solvency"
  {
    RadiiExact();
    assert Radius("protocol-solvency", 3);
    RadiusExact(b, 0);
    if BlastRank(b) >= 0 {
      var n: nat := BlastRank(b);
      assert Radius(b, n);
    }
  }

  /** The radius of the super-finding. For a terminal other than liveness it is the widest radius of the
      ladder that a member claims, and empty when none claims one. */
  lemma RadiusMeans(fs: seq<Finding>, terminal: Option<TerminalDoc>, radius: string)
    requires Priced(fs, terminal, radius)
    requires terminal.Some? ==> Capabilities.NormalizeLabel(terminal.value.capability) != "liveness_loss"
    ensures radius == "" <==> forall n: nat :: !Claimed(fs, n)
    ensures forall n: nat :: WidestClaim(fs, n) ==> Radius(radius, n)
  {
    if terminal.Some? { Capabilities.SixTerminals(terminal.value.capability); }
    WidestMeans(fs, radius);
  }

  /** For liveness it is at least protocol solvency. */
  lemma LivenessRadiusMeans(fs: seq<Finding>, terminal: TerminalDoc, radius: string)
    requires Priced(fs, Some(terminal), radius)
    requires Capabilities.NormalizeLabel(terminal.capability) == "liveness_loss"
    ensures Claimed(fs, 4) ==> Radius(radius, 4)
    ensures !Claimed(fs, 4) ==> Radius(radius, 3)
  {
    Capabilities.SixTerminals(terminal.capability);
    var blast :| Widest(fs, blast) && radius == LivenessRadius(blast);
    WidestMeans(fs, blast);
    LivenessMeans(blast);
    RadiiExact();
    if Claimed(fs, 4) {
      forall m: nat | m > 4 ensures !Claimed(fs, m) {}
      assert WidestClaim(fs, 4);
    } else {
      AtMostSolvency(fs, blast);
    }
  }

  lemma AtMostSolvency(fs: seq<Finding>, blast: string)
    requires Widest(fs, blast) && !Claimed(fs, 4)
    ensures forall n: nat :: Radius(blast, n) ==> n <= 3
  {
    if blast != "" {
      var f :| f in fs && f.blastRadius == blast;
      forall n: nat | Radius(blast, n) ensures n <= 3 {
        assert Radius(f.blastRadius, n) && Claimed(fs, n);
      }
    }
  }

  /** The super-finding: a CHAIN record that grants and requires, sorted, whatever some member does,
      with the first member's attacker figures and pin. */
  lemma SuperMeans(f: Finding, fs: seq<Finding>, id: string, terminal: Option<TerminalDoc>)
    requires fs != [] && IsSuperFinding(f, fs, id, terminal)
    ensures f.id == id && f.status == "CHAIN" && f.attacker == fs[0].attacker && f.pin == fs[0].pin && f.evidence == []
    ensures Increasing(f.granted) && Distinct(f.granted) && Increasing(f.required) && Distinct(f.required)
    ensures forall cap :: cap in f.granted <==> exists m :: m in fs && Spells(m.granted, cap)
    ensures forall cap :: cap in f.required <==> exists m :: m in fs && Spells(m.required, cap)
  {
    SetKeysSorted(AllGrants(fs));
    SetKeysSorted(AllNeeds(fs));
    forall cap
      ensures cap in f.granted <==> exists m :: m in fs && Spells(m.granted, cap)
      ensures cap in f.required <==> exists m :: m in fs && Spells(m.required, cap)
    {
      MemberLabels(fs, cap);
      assert cap in f.granted <==> cap in SetOf(f.granted);
      assert cap in f.required <==> cap in SetOf(f.required);
    }
  }

  lemma MemberLabels(fs: seq<Finding>, cap: string)
    ensures cap in AllGrants(fs) <==> exists m :: m in fs && Spells(m.granted, cap)
    ensures cap in AllNeeds(fs) <==> exists m :: m in fs && Spells(m.required, cap)
  {
    forall m: Finding
      ensures cap in Grants(m) <==> Spells(m.granted, cap)
      ensures cap in Needs(m) <==> Spells(m.required, cap)
    {
      SpellsExact(m, cap);
    }
  }
}
