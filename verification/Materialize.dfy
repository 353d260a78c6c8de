/** `MaterializeChainOpts`: the gated step that grows the chain store. */
module Materialize {
  import opened Ordering
  import opened Findings
  import Capabilities
  import TerminalSearch

  datatype Refusal =
    | TooFew | NoSuchFinding | NotConfirmed | BadPins | CapabilityGap | UnknownLevel | Duplicate | BadTerminal

  datatype Link = Link(from: string, granted: string, to: string, evidence: Option<string>)

  /** One value of a caller's capital breakdown. */
  datatype BreakdownValue = Null | Boolean | Amount(usd: real) | NotNumeric

  datatype Breakdown = NoBreakdown | NotAnObject | Fields(entries: seq<(string, BreakdownValue)>)

  /** A terminal annotation: as claimed by the caller (`via` may be absent). */
  datatype Claim = Claim(capability: string, via: Option<string>, total: Figure, breakdown: Breakdown)

  datatype TerminalDoc = TerminalDoc(capability: string, via: string, total: Figure, breakdown: Breakdown)

  datatype ChainDoc = ChainDoc(id: string, signature: string, members: seq<string>, links: seq<Link>, floor: string,
                               terminal: Option<TerminalDoc>, unproven: bool)

  datatype Request = Request(members: seq<string>, claim: Option<Claim>, unproven: bool, chainId: string,
                             findingId: string)

  datatype Outcome = Made(doc: ChainDoc) | Refused(why: Refusal)

  datatype State = State(findings: seq<Finding>, chains: seq<ChainDoc>)

  // ----- Evidence levels ------------------------------------------------------------

  const EVIDENCE_ORDER: seq<string> := ["E0", "E1", "E2", "E3", "E4", "E5", "E6", "E7"]

  predicate KnownLevel(level: string) {
    level in EVIDENCE_ORDER
  }

  method LevelIndex(level: string) returns (i: nat, known: bool)
    ensures known <==> KnownLevel(level)
    ensures known ==> i < |EVIDENCE_ORDER| && EVIDENCE_ORDER[i] == level
  {
    i := 0;
    while i < |EVIDENCE_ORDER|
      invariant i <= |EVIDENCE_ORDER|
      invariant level !in EVIDENCE_ORDER[..i]
      decreases |EVIDENCE_ORDER| - i
    {
      if EVIDENCE_ORDER[i] == level {
        return i, true;
      }
      assert EVIDENCE_ORDER[..i + 1] == EVIDENCE_ORDER[..i] + [EVIDENCE_ORDER[i]];
      i := i + 1;
    }
    assert EVIDENCE_ORDER[..i] == EVIDENCE_ORDER;
    known := false;
  }

  lemma LevelsDiffer(i: nat, j: nat)
    requires i < |EVIDENCE_ORDER| && j < |EVIDENCE_ORDER| && EVIDENCE_ORDER[i] == EVIDENCE_ORDER[j]
    ensures i == j
  {
    assert EVIDENCE_ORDER[i][1] == EVIDENCE_ORDER[j][1];
  }

  /** `i` is the position of the strongest known level of an evidence list, 0 for none. */
  ghost predicate IsBest(evidence: seq<string>, i: nat) {
    && i < |EVIDENCE_ORDER|
    && (i == 0 || EVIDENCE_ORDER[i] in evidence)
    && forall j :: i < j < |EVIDENCE_ORDER| ==> EVIDENCE_ORDER[j] !in evidence
  }

  ghost predicate LevelsKnown(members: seq<Finding>) {
    forall m :: m in members ==> forall level :: level in m.evidence ==> KnownLevel(level)
  }

  /** `i` is the weakest of the members' best levels. */
  ghost predicate IsFloor(members: seq<Finding>, i: nat) {
    && (exists m :: m in members && IsBest(m.evidence, i))
    && forall m, j :: m in members && IsBest(m.evidence, j) ==> i <= j
  }

  lemma BestPush(evidence: seq<string>, level: string, i: nat, k: nat)
    requires IsBest(evidence, i) && k < |EVIDENCE_ORDER| && EVIDENCE_ORDER[k] == level
    ensures IsBest(evidence + [level], if k > i then k else i)
  {
    forall j | (if k > i then k else i) < j < |EVIDENCE_ORDER| ensures EVIDENCE_ORDER[j] !in evidence + [level] {
      if EVIDENCE_ORDER[j] == level { LevelsDiffer(j, k); }
    }
  }

  lemma BestUnique(evidence: seq<string>, i: nat, j: nat)
    requires IsBest(evidence, i) && IsBest(evidence, j)
    ensures i == j
  {
  }

  /** `bestEvidenceLevel`: unknown levels are skipped. */
  method BestEvidenceLevel(m: Finding) returns (best: string)
    ensures exists i: nat :: IsBest(m.evidence, i) && best == EVIDENCE_ORDER[i]
  {
    best := "E0";
    var bestIdx := 0;
    for k := 0 to |m.evidence|
      invariant IsBest(m.evidence[..k], bestIdx) && best == EVIDENCE_ORDER[bestIdx]
    {
      var idx, known := LevelIndex(m.evidence[k]);
      assert m.evidence[..k + 1] == m.evidence[..k] + [m.evidence[k]];
      if !known {
        assert forall j :: 0 <= j < |EVIDENCE_ORDER| ==> EVIDENCE_ORDER[j] != m.evidence[k];
        continue;
      }
      BestPush(m.evidence[..k], m.evidence[k], bestIdx, idx);
      if idx > bestIdx {
        best, bestIdx := m.evidence[k], idx;
      }
    }
    assert m.evidence[..|m.evidence|] == m.evidence;
  }

  /** The inner loop of `chainFloor`: here an unknown level is an error. */
  method StrictBest(m: Finding) returns (best: string, bestIdx: nat, ok: bool)
    ensures ok <==> forall level :: level in m.evidence ==> KnownLevel(level)
    ensures ok ==> IsBest(m.evidence, bestIdx) && best == EVIDENCE_ORDER[bestIdx]
  {
    best, bestIdx := "E0", 0;
    var first := true;
    for k := 0 to |m.evidence|
      invariant IsBest(m.evidence[..k], bestIdx) && best == EVIDENCE_ORDER[bestIdx]
      invariant first ==> bestIdx == 0
      invariant forall level :: level in m.evidence[..k] ==> KnownLevel(level)
    {
      var idx, known := LevelIndex(m.evidence[k]);
      if !known {
        assert m.evidence[k] in m.evidence;
        return best, bestIdx, false;
      }
      assert m.evidence[..k + 1] == m.evidence[..k] + [m.evidence[k]];
      BestPush(m.evidence[..k], m.evidence[k], bestIdx, idx);
      if first || idx > bestIdx {
        best, bestIdx, first := m.evidence[k], idx, false;
      }
    }
    assert m.evidence[..|m.evidence|] == m.evidence;
    ok := true;
  }

  /** `chainFloor`: the weakest member's best evidence level. */
  method ChainFloor(members: seq<Finding>) returns (floor: Option<string>)
    requires members != []
    ensures floor.Some? <==> LevelsKnown(members)
    ensures floor.Some? ==> FloorIs(members, floor.value)
  {
    var level: string, floorIdx: nat := "", 0;
    for k := 0 to |members|
      invariant LevelsKnown(members[..k])
      invariant k == 0 <==> level == ""
      invariant k > 0 ==> IsFloor(members[..k], floorIdx) && level == EVIDENCE_ORDER[floorIdx]
    {
      var best, bestIdx, ok := StrictBest(members[k]);
      if !ok {
        assert members[k] in members;
        return None;
      }
      assert members[..k + 1] == members[..k] + [members[k]];
      FloorPush(members[..k], members[k], floorIdx, bestIdx);
      assert best != "";
      if level == "" || bestIdx < floorIdx {
        level, floorIdx := best, bestIdx;
      }
    }
    assert members[..|members|] == members;
    floor := Some(level);
  }

  lemma FloorPush(members: seq<Finding>, m: Finding, i: nat, k: nat)
    requires IsBest(m.evidence, k)
    requires members == [] || IsFloor(members, i)
    ensures IsFloor(members + [m], if members == [] || k < i then k else i)
  {
    var all := members + [m];
    assert m in all;
    forall j | IsBest(m.evidence, j) ensures j == k { BestUnique(m.evidence, j, k); }
    if members != [] {
      var w :| w in members && IsBest(w.evidence, i);
      assert w in all;
    }
  }

  // ----- Members and pins ------------------------------------------------------------

  function Find(findings: seq<Finding>, id: string): Option<Finding> {
    if findings == [] then None
    else if findings[0].id == id then Some(findings[0])
    else Find(findings[1..], id)
  }

  ghost predicate AllFound(findings: seq<Finding>, ids: seq<string>) {
    forall i :: 0 <= i < |ids| ==> Find(findings, ids[i]).Some?
  }

  ghost function Found(findings: seq<Finding>, ids: seq<string>): (r: seq<Finding>)
    requires AllFound(findings, ids)
    ensures |r| == |ids|
    ensures forall i :: 0 <= i < |ids| ==> r[i] == Find(findings, ids[i]).value
  {
    if ids == [] then [] else [Find(findings, ids[0]).value] + Found(findings, ids[1..])
  }

  /** Every member was proved against the same stated snapshot. */
  ghost predicate OnePin(members: seq<Finding>) {
    exists pin :: PinnedTo(members, pin)
  }

  ghost predicate PinnedTo(members: seq<Finding>, pin: string) {
    forall m :: m in members ==> m.pin == Some(pin)
  }

  ghost predicate AllPinned(members: seq<Finding>) {
    forall m :: m in members ==> m.pin.Some?
  }

  /** `checkPinsMode`. */
  method CheckPins(members: seq<Finding>, unproven: bool) returns (ok: bool)
    ensures ok <==> if unproven then AllPinned(members) else OnePin(members)
  {
    var distinct: set<string>, hasNone := {}, false;
    for k := 0 to |members|
      invariant hasNone <==> exists m :: m in members[..k] && m.pin.None?
      invariant distinct == PinSet(members[..k])
    {
      assert members[..k + 1] == members[..k] + [members[k]];
      if members[k].pin.None? {
        hasNone := true;
        continue;
      }
      distinct := distinct + {members[k].pin.value};
    }
    assert members[..|members|] == members;
    OnePinBySet(members);
    ok := if unproven then !hasNone else !(|distinct| > 1 || hasNone);
  }

  ghost function PinSet(members: seq<Finding>): set<string> {
    set m | m in members && m.pin.Some? :: m.pin.value
  }

  lemma OnePinBySet(members: seq<Finding>)
    ensures OnePin(members) <==> AllPinned(members) && |PinSet(members)| <= 1
  {
    var pins := PinSet(members);
    if OnePin(members) {
      var pin :| PinnedTo(members, pin);
      assert pins <= {pin};
      if pins != {} { assert pins == {pin}; }
    }
    if AllPinned(members) && |pins| <= 1 {
      if members == [] {
        assert PinnedTo(members, "");
      } else {
        var pin := members[0].pin.value;
        assert members[0] in members && pin in pins;
        assert pins == {pin} by { assert |pins - {pin}| == 0; }
        forall m | m in members ensures m.pin == Some(pin) {
          assert m.pin.value in pins;
        }
        assert PinnedTo(members, pin);
      }
    }
  }

  method Unconfirmed(members: seq<Finding>) returns (ids: seq<string>)
    ensures ids == [] <==> forall m :: m in members ==> Confirmed(m)
  {
    ids := [];
    for k := 0 to |members|
      invariant ids == [] <==> forall m :: m in members[..k] ==> Confirmed(m)
    {
      assert members[..k + 1] == members[..k] + [members[k]];
      if !Confirmed(members[k]) {
        ids := ids + [members[k].id];
      }
    }
    assert members[..|members|] == members;
  }

  ghost function MemberGate(members: seq<Finding>, unproven: bool): Option<Refusal> {
    if !unproven && !(forall m :: m in members ==> Confirmed(m)) then Some(NotConfirmed)
    else if !(if unproven then AllPinned(members) else OnePin(members)) then Some(BadPins)
    else None
  }

  // ----- Continuity --------------------------------------------------------------------

  function Overlap(a: Finding, b: Finding): set<string> {
    Grants(a) * Needs(b)
  }

  ghost predicate Continuous(members: seq<Finding>) {
    forall i :: 0 <= i < |members| - 1 ==> Overlap(members[i], members[i + 1]) != {}
  }

  /** The link between two consecutive members carries their least shared capability, and
      in the unproven mode the evidence of the granting member. */
  ghost predicate LinkBetween(l: Link, a: Finding, b: Finding, unproven: bool) {
    && l.from == a.id && l.to == b.id
    && l.granted in Overlap(a, b)
    && (forall cap :: cap in Overlap(a, b) ==> Leq(l.granted, cap))
    && (if unproven then exists i: nat :: IsBest(a.evidence, i) && l.evidence == Some(EVIDENCE_ORDER[i])
        else l.evidence == None)
  }

  ghost predicate LinksMatch(links: seq<Link>, members: seq<Finding>, unproven: bool) {
    && |links| == (if members == [] then 0 else |members| - 1)
    && forall i :: 0 <= i < |links| ==> LinkBetween(links[i], members[i], members[i + 1], unproven)
  }

  lemma FirstIsLeast(caps: set<string>)
    requires caps != {}
    ensures |SetKeys(caps)| > 0 && SetKeys(caps)[0] in caps
    ensures forall cap :: cap in caps ==> Leq(SetKeys(caps)[0], cap)
  {
    var keys := SetKeys(caps);
    SetKeysSorted(caps);
    IncreasingIsSorted(keys);
    assert keys[0] in SetOf(keys);
    forall cap | cap in caps ensures Leq(keys[0], cap) {
      assert cap in SetOf(keys);
      var j :| 0 <= j < |keys| && keys[j] == cap;
      LeqTotal(cap, cap);
    }
  }

  method LinkFor(a: Finding, b: Finding, unproven: bool) returns (link: Link)
    requires Overlap(a, b) != {}
    ensures LinkBetween(link, a, b, unproven)
  {
    var overlap := Overlap(a, b);
    var caps := SortedKeys(overlap);
    FirstIsLeast(overlap);
    var evidence: Option<string> := None;
    if unproven {
      var best := BestEvidenceLevel(a);
      evidence := Some(best);
    }
    link := Link(a.id, caps[0], b.id, evidence);
  }

  lemma ContinuousPush(members: seq<Finding>, i: nat)
    requires i + 1 < |members|
    ensures Continuous(members[..i + 2]) <==> Continuous(members[..i + 1]) && Overlap(members[i], members[i + 1]) != {}
  {
    var more, less := members[..i + 2], members[..i + 1];
    assert forall j :: 0 <= j <= i ==> less[j] == more[j] == members[j];
    assert more[i + 1] == members[i + 1];
  }

  lemma LinksPush(links: seq<Link>, members: seq<Finding>, i: nat, unproven: bool, link: Link)
    requires i + 1 < |members| && LinksMatch(links, members[..i + 1], unproven)
    requires LinkBetween(link, members[i], members[i + 1], unproven)
    ensures LinksMatch(links + [link], members[..i + 2], unproven)
  {
    var more, less, out := members[..i + 2], members[..i + 1], links + [link];
    forall j | 0 <= j < |out| ensures LinkBetween(out[j], more[j], more[j + 1], unproven) {
      if j < i {
        assert out[j] == links[j] && less[j] == more[j] && less[j + 1] == more[j + 1];
        assert LinkBetween(links[j], less[j], less[j + 1], unproven);
      }
    }
  }

  /** `chainLinksMode`: one link per consecutive pair, or a capability gap. */
  method ChainLinks(members: seq<Finding>, unproven: bool) returns (links: Option<seq<Link>>)
    ensures links.Some? <==> Continuous(members)
    ensures links.Some? ==> LinksMatch(links.value, members, unproven)
  {
    var out: seq<Link> := [];
    if members == [] {
      return Some(out);
    }
    var i := 0;
    while i + 1 < |members|
      invariant 0 <= i < |members|
      invariant Continuous(members[..i + 1])
      invariant LinksMatch(out, members[..i + 1], unproven)
      decreases |members| - i
    {
      ContinuousPush(members, i);
      if Overlap(members[i], members[i + 1]) == {} {
        return None;
      }
      var link := LinkFor(members[i], members[i + 1], unproven);
      LinksPush(out, members, i, unproven, link);
      out := out + [link];
      i := i + 1;
    }
    assert members[..i + 1] == members;
    links := Some(out);
  }

  // ----- Signatures ----------------------------------------------------------------------

  function NonEmpty(ids: seq<string>): seq<string> {
    if ids == [] then [] else (if ids[0] != "" then [ids[0]] else []) + NonEmpty(ids[1..])
  }

  /** `TextSignature`, with the hash taken as injective: the normalized text itself. */
  function TextSignature(text: string): string {
    Join(Capabilities.Fields(Capabilities.Lower(text)), ' ')
  }

  ghost function ChainSignature(ids: seq<string>): string {
    TextSignature("chain|" + Join(Ascending(NonEmpty(ids)), '|'))
  }

  method ComputeSignature(ids: seq<string>) returns (signature: string)
    ensures signature == ChainSignature(ids)
  {
    var items := SortStrings(NonEmpty(ids));
    signature := TextSignature("chain|" + Join(items, '|'));
  }

  ghost predicate IsDuplicate(chains: seq<ChainDoc>, signature: string) {
    exists c :: c in chains && c.signature == signature
  }

  // ----- Terminal annotations --------------------------------------------------------------

  const CAPITAL_FIELDS: seq<string> := ["required_usd", "recoverable_usd", "irrecoverable_cost_usd", "atomic_usd",
                                        "borrowable_usd"]

  predicate EntryOk(e: (string, BreakdownValue)) {
    && (e.0 in CAPITAL_FIELDS || e.0 == "net_at_risk_usd")
    && (e.1.Null? || (e.1.Amount? && e.1.usd >= 0.0))
  }

  predicate BreakdownOk(b: Breakdown) {
    b.NoBreakdown? || (b.Fields? && forall e :: e in b.entries ==> EntryOk(e))
  }

  /** Where the claim says the terminal capability comes from: by default the last member. */
  function ViaOf(claim: Claim, members: seq<Finding>): string
    requires members != []
  {
    if claim.via.Some? then claim.via.value else members[|members| - 1].id
  }

  ghost predicate ClaimOk(findings: seq<Finding>, ids: seq<string>, members: seq<Finding>, claim: Claim)
    requires members != []
  {
    var via := ViaOf(claim, members);
    && claim.capability != ""
    && Find(findings, via).Some?
    && claim.capability in Grants(Find(findings, via).value)
    && via in ids
    && BreakdownOk(claim.breakdown)
  }

  /** The first reachable terminal path, in hypothesis mode, over exactly these members. */
  function FirstOver(rows: seq<TerminalSearch.Row>, want: set<string>): Option<Claim> {
    if rows == [] then None
    else if |rows[0].path| == |want| && SetOf(rows[0].path) == want && rows[0].finding != ""
    then Some(Claim(rows[0].terminal, Some(rows[0].finding), Number(rows[0].totalRequired), NoBreakdown))
    else FirstOver(rows[1..], want)
  }

  ghost function DerivedClaim(findings: seq<Finding>, ids: seq<string>): Option<Claim> {
    FirstOver(TerminalSearch.TerminalChains(findings, None, 5, |ids|, true), SetOf(ids))
  }

  method DerivedTerminal(findings: seq<Finding>, ids: seq<string>) returns (claim: Option<Claim>)
    ensures claim == DerivedClaim(findings, ids)
  {
    var paths := TerminalSearch.FindTerminalChainsMode(findings, None, 5, |ids|, true);
    var want := SetOf(ids);
    assert paths[0..] == paths;
    for k := 0 to |paths|
      invariant DerivedClaim(findings, ids) == FirstOver(paths[k..], want)
    {
      assert paths[k..][1..] == paths[k + 1..] && paths[k..][0] == paths[k];
      var p := paths[k];
      if |p.path| != |want| {
        continue;
      }
      if SetOf(p.path) != want {
        continue;
      }
      if p.finding == "" {
        continue;
      }
      return Some(Claim(p.terminal, Some(p.finding), Number(p.totalRequired), NoBreakdown));
    }
    assert paths[|paths|..] == [];
    claim := None;
  }

  ghost function ClaimUsed(findings: seq<Finding>, req: Request): Option<Claim> {
    if req.unproven && req.claim.None? then DerivedClaim(findings, req.members) else req.claim
  }

  // ----- Pricing ------------------------------------------------------------------------------

  const BLAST_ORDER: seq<string> := ["single-user", "subset-of-users", "all-users", "protocol-solvency",
                                     "bridge-canonical"]

  function BlastRankFrom(b: string, i: nat): int
    requires i <= |BLAST_ORDER|
    decreases |BLAST_ORDER| - i
  {
    if i == |BLAST_ORDER| then -1 else if BLAST_ORDER[i] == b then i else BlastRankFrom(b, i + 1)
  }

  function BlastRank(b: string): int {
    BlastRankFrom(b, 0)
  }

  /** `b` is a radius some member claims and no member claims a wider one; "" if none
      claims one on the ladder. */
  ghost predicate Widest(members: seq<Finding>, b: string) {
    && (if b == "" then forall m :: m in members ==> m.blastRadius == "" || BlastRank(m.blastRadius) < 0
        else BlastRank(b) >= 0 && exists m :: m in members && m.blastRadius == b)
    && forall m :: m in members && m.blastRadius != "" && b != "" ==> BlastRank(m.blastRadius) <= BlastRank(b)
  }

  method ChainBlastRadius(members: seq<Finding>) returns (blast: string)
    ensures Widest(members, blast)
  {
    blast := "";
    for k := 0 to |members|
      invariant Widest(members[..k], blast)
    {
      assert members[..k + 1] == members[..k] + [members[k]];
      var b := members[k].blastRadius;
      if b != "" && BlastRank(b) >= 0 && (blast == "" || BlastRank(b) > BlastRank(blast)) {
        blast := b;
      }
    }
    assert members[..|members|] == members;
  }

  /** The radius a liveness terminal is priced at: at least protocol solvency. */
  function LivenessRadius(blast: string): (r: string) {
    if BlastRank(blast) < BlastRank("protocol-solvency") then "protocol-solvency" else blast
  }

  ghost predicate Priced(members: seq<Finding>, terminal: Option<TerminalDoc>, radius: string) {
    exists blast :: Widest(members, blast) &&
      radius == if terminal.Some? && Capabilities.IsLivenessTerminal(terminal.value.capability) then
        LivenessRadius(blast)
                else blast
  }

  // ----- The super-finding --------------------------------------------------------------------

  ghost function AllGrants(members: seq<Finding>): set<string> {
    set m, cap | m in members && cap in Grants(m) :: cap
  }

  ghost function AllNeeds(members: seq<Finding>): set<string> {
    set m, cap | m in members && cap in Needs(m) :: cap
  }

  method ChainCapabilities(members: seq<Finding>) returns (granted: seq<string>, required: seq<string>)
    ensures granted == SetKeys(AllGrants(members)) && required == SetKeys(AllNeeds(members))
  {
    var gset: set<string>, rset: set<string> := {}, {};
    for k := 0 to |members|
      invariant gset == AllGrants(members[..k]) && rset == AllNeeds(members[..k])
    {
      assert members[..k + 1] == members[..k] + [members[k]];
      gset := gset + Grants(members[k]);
      rset := rset + Needs(members[k]);
    }
    assert members[..|members|] == members;
    granted := SortedKeys(gset);
    required := SortedKeys(rset);
  }

  ghost predicate IsSuperFinding(f: Finding, members: seq<Finding>, id: string, terminal: Option<TerminalDoc>)
    requires members != []
  {
    && f.id == id
    && f.status == "CHAIN"
    && f.granted == SetKeys(AllGrants(members))
    && f.required == SetKeys(AllNeeds(members))
    && f.attacker == members[0].attacker
    && f.pin == members[0].pin
    && f.evidence == []
    && Priced(members, terminal, f.blastRadius)
  }

  // ----- The gates, in the order they are applied -----------------------------------------------

  /** The gates that look at the members alone. */
  ghost function ChainGate(members: seq<Finding>, unproven: bool): Option<Refusal> {
    if MemberGate(members, unproven).Some? then MemberGate(members, unproven)
    else if !Continuous(members) then Some(CapabilityGap)
    else if !LevelsKnown(members) then Some(UnknownLevel)
    else None
  }

  ghost predicate AnnotationOk(findings: seq<Finding>, ids: seq<string>, members: seq<Finding>, claim: Option<Claim>)
    requires members != []
  {
    claim.Some? ==> ClaimOk(findings, ids, members, claim.value)
  }

  ghost function Gate(s: State, req: Request): Option<Refusal> {
    if |req.members| < 2 then Some(TooFew)
    else if !AllFound(s.findings, req.members) then Some(NoSuchFinding)
    else
      var members := Found(s.findings, req.members);
      if ChainGate(members, req.unproven).Some? then ChainGate(members, req.unproven)
      else if IsDuplicate(s.chains, ChainSignature(req.members)) then Some(Duplicate)
      else if !AnnotationOk(s.findings, req.members, members, ClaimUsed(s.findings, req)) then Some(BadTerminal)
      else None
  }

  ghost function TerminalOf(members: seq<Finding>, claim: Option<Claim>): Option<TerminalDoc>
    requires members != []
  {
    match claim
    case None => None
    case Some(c) => Some(TerminalDoc(c.capability, ViaOf(c, members), c.total, c.breakdown))
  }

  ghost predicate FloorIs(members: seq<Finding>, floor: string) {
    exists i: nat :: IsFloor(members, i) && floor == EVIDENCE_ORDER[i]
  }

  /** The stored document says what the members say. */
  ghost predicate IsDoc(s: State, req: Request, doc: ChainDoc)
    requires Gate(s, req) == None
  {
    var members := Found(s.findings, req.members);
    && doc.id == req.chainId
    && doc.signature == ChainSignature(req.members)
    && doc.members == req.members
    && LinksMatch(doc.links, members, req.unproven)
    && FloorIs(members, doc.floor)
    && doc.unproven == req.unproven
    && doc.terminal == TerminalOf(members, ClaimUsed(s.findings, req))
  }

  /** One call: refused at the first gate that fails, leaving the store as it was, or one
      chain stored and, in the proven mode only, one super-finding saved. */
  ghost predicate Step(s: State, req: Request, out: Outcome, t: State) {
    match Gate(s, req)
    case Some(why) => out == Refused(why) && t == s
    case None =>
      && out.Made?
      && IsDoc(s, req, out.doc)
      && t.chains == s.chains + [out.doc]
      && if req.unproven then t.findings == s.findings
         else |t.findings| == |s.findings| + 1
              && t.findings[..|s.findings|] == s.findings
              && IsSuperFinding(t.findings[|s.findings|], Found(s.findings, req.members), req.findingId,
                                out.doc.terminal)
  }

  class ChainStore {
    var findings: seq<Finding>
    var chains: seq<ChainDoc>

    ghost function Value(): State
      reads this
    {
      State(findings, chains)
    }

    constructor (findings: seq<Finding>)
      ensures Value() == State(findings, [])
    {
      this.findings := findings;
      this.chains := [];
    }

    method LoadEach(ids: seq<string>) returns (members: Option<seq<Finding>>)
      ensures members == if AllFound(findings, ids) then Some(Found(findings, ids)) else None
    {
      var out: seq<Finding> := [];
      for k := 0 to |ids|
        invariant |out| == k
        invariant forall j :: 0 <= j < k ==> Find(findings, ids[j]) == Some(out[j])
      {
        var f := Find(findings, ids[k]);
        if f.None? {
          return None;
        }
        out := out + [f.value];
      }
      assert out == Found(findings, ids);
      members := Some(out);
    }

    /** `loadChainMembersMode`: the status gate, then the pin gate. */
    method LoadMembers(ids: seq<string>, unproven: bool) returns (members: seq<Finding>, why: Option<Refusal>)
      ensures why == if !AllFound(findings, ids) then Some(NoSuchFinding)
              else MemberGate(Found(findings, ids), unproven)
      ensures why.None? ==> members == Found(findings, ids)
    {
      var loaded := LoadEach(ids);
      if loaded.None? {
        return [], Some(NoSuchFinding);
      }
      members := loaded.value;
      if !unproven {
        var unconfirmed := Unconfirmed(members);
        if |unconfirmed| > 0 {
          return [], Some(NotConfirmed);
        }
      }
      var ok := CheckPins(members, unproven);
      why := if ok then None else Some(BadPins);
    }

    method ChainDuplicate(signature: string) returns (dup: bool)
      ensures dup <==> IsDuplicate(chains, signature)
    {
      for k := 0 to |chains|
        invariant forall c :: c in chains[..k] ==> c.signature != signature
      {
        if chains[k].signature == signature {
          return true;
        }
        assert chains[..k + 1] == chains[..k] + [chains[k]];
      }
      assert chains[..|chains|] == chains;
      dup := false;
    }

    method TerminalAnnotation(ids: seq<string>, members: seq<Finding>, claim: Claim) returns (doc: Option<TerminalDoc>)
      requires members != []
      ensures doc == if ClaimOk(findings, ids, members, claim)
                     then Some(TerminalDoc(claim.capability, ViaOf(claim, members), claim.total, claim.breakdown))
                     else None
    {
      if claim.capability == "" {
        return None;
      }
      var via := ViaOf(claim, members);
      var vf := Find(findings, via);
      if vf.None? || claim.capability !in Grants(vf.value) || via !in ids {
        return None;
      }
      if !BreakdownOk(claim.breakdown) {
        return None;
      }
      doc := Some(TerminalDoc(claim.capability, via, claim.total, claim.breakdown));
    }

    method SaveSuperFinding(members: seq<Finding>, id: string, terminal: Option<TerminalDoc>)
      requires members != []
      modifies this`findings
      ensures |findings| == |old(findings)| + 1 && findings[..|old(findings)|] == old(findings)
      ensures IsSuperFinding(findings[|old(findings)|], members, id, terminal)
    {
      var blast := ChainBlastRadius(members);
      var radius := blast;
      if terminal.Some? && Capabilities.IsLivenessTerminal(terminal.value.capability) {
        radius := LivenessRadius(blast);
      }
      assert Priced(members, terminal, radius);
      var granted, required := ChainCapabilities(members);
      findings := findings + [Finding(id, "CHAIN", granted, required, members[0].attacker, members[0].pin, [], radius)];
    }

    /** The gates that read the members: statuses, pins, continuity, levels. */
    method ExamineMembers(ids: seq<string>, unproven: bool)
      returns (members: seq<Finding>, links: seq<Link>, floor: string, why: Option<Refusal>)
      requires |ids| >= 2
      ensures why == if !AllFound(findings, ids) then Some(NoSuchFinding) else ChainGate(Found(findings, ids), unproven)
      ensures why.None? ==>
              members == Found(findings, ids) && LinksMatch(links, members, unproven) && FloorIs(members, floor)
    {
      links, floor := [], "";
      members, why := LoadMembers(ids, unproven);
      if why.Some? {
        return;
      }
      var computed := ChainLinks(members, unproven);
      if computed.None? {
        return members, [], "", Some(CapabilityGap);
      }
      links := computed.value;
      var weakest := ChainFloor(members);
      if weakest.None? {
        return members, [], "", Some(UnknownLevel);
      }
      floor := weakest.value;
    }

    /** The terminal annotation: derived for an unproven chain that names none, and checked. */
    method Annotate(req: Request, members: seq<Finding>) returns (terminal: Option<TerminalDoc>, ok: bool)
      requires members != []
      ensures ok <==> AnnotationOk(findings, req.members, members, ClaimUsed(findings, req))
      ensures ok ==> terminal == TerminalOf(members, ClaimUsed(findings, req))
    {
      var claim := req.claim;
      if req.unproven && claim.None? {
        claim := DerivedTerminal(findings, req.members);
      }
      if claim.None? {
        return None, true;
      }
      terminal := TerminalAnnotation(req.members, members, claim.value);
      ok := terminal.Some?;
    }

    method MaterializeChain(req: Request) returns (out: Outcome)
      modifies this
      ensures Step(old(Value()), req, out, Value())
    {
      if |req.members| < 2 {
        return Refused(TooFew);
      }
      var members, links, floor, why := ExamineMembers(req.members, req.unproven);
      if why.Some? {
        return Refused(why.value);
      }
      var signature := ComputeSignature(req.members);
      var dup := ChainDuplicate(signature);
      if dup {
        return Refused(Duplicate);
      }
      var terminal, ok := Annotate(req, members);
      if !ok {
        return Refused(BadTerminal);
      }
      if !req.unproven {
        SaveSuperFinding(members, req.findingId, terminal);
      }
      var doc := ChainDoc(req.chainId, signature, req.members, links, floor, terminal, req.unproven);
      chains := chains + [doc];
      out := Made(doc);
    }
  }
}
