/** What the chain store keeps over any run of materializations and outside edits. */
module MaterializeTheorems {
  import opened Ordering
  import opened Findings
  import Capabilities
  import TerminalSearch
  import TerminalTheorems
  import TerminalRanking
  import ChainSearch
  import ChainTheorems
  import opened Materialize

  // ----- Signatures identify member multisets --------------------------------------------

  lemma {:induction false} NonEmptyContents(ids: seq<string>)
    ensures multiset(NonEmpty(ids)) == multiset(ids)["" := 0]
  {
    if ids != [] {
      NonEmptyContents(ids[1..]);
      assert ids == [ids[0]] + ids[1..];
    }
  }

  /** A signature ignores the order of the members. */
  lemma SignatureIgnoresOrder(p: seq<string>, q: seq<string>)
    requires multiset(p) == multiset(q)
    ensures ChainSignature(p) == ChainSignature(q)
  {
    NonEmptyContents(p);
    NonEmptyContents(q);
    AscendingByContents(NonEmpty(p), NonEmpty(q));
  }

  predicate HexChar(c: char) {
    '0' <= c <= '9' || 'a' <= c <= 'f'
  }

  /** The id form of the finding schema: `F-` and twelve lowercase hex digits. */
  ghost predicate StoredId(id: string) {
    && |id| == 14 && id[0] == 'F' && id[1] == '-'
    && forall i :: 2 <= i < 14 ==> HexChar(id[i])
  }

  function LowerAll(ids: seq<string>): (r: seq<string>)
    ensures |r| == |ids|
    ensures forall i :: 0 <= i < |ids| ==> r[i] == Capabilities.Lower(ids[i])
  {
    if ids == [] then [] else [Capabilities.Lower(ids[0])] + LowerAll(ids[1..])
  }

  lemma {:induction false} LowerJoin(ids: seq<string>)
    ensures Capabilities.Lower(Join(ids, '|')) == Join(LowerAll(ids), '|')
  {
    if |ids| > 1 {
      LowerJoin(ids[1..]);
      Capabilities.LowerConcat(ids[0], ['|'] + Join(ids[1..], '|'));
      Capabilities.LowerConcat(['|'], Join(ids[1..], '|'));
      assert Capabilities.Lower(['|']) == ['|'];
      assert LowerAll(ids)[1..] == LowerAll(ids[1..]);
    }
  }

  lemma LowerInjective(a: string, b: string)
    requires StoredId(a) && StoredId(b) && Capabilities.Lower(a) == Capabilities.Lower(b)
    ensures a == b
  {
    forall i | 2 <= i < 14 ensures a[i] == b[i] {
      assert Capabilities.Lower(a)[i] == Capabilities.LowerChar(a[i]) == a[i];
      assert Capabilities.Lower(b)[i] == Capabilities.LowerChar(b[i]) == b[i];
    }
    assert |Capabilities.Lower(a)| == |a|;
  }

  ghost predicate NoSpace(s: string) {
    forall i :: 0 <= i < |s| ==> !Capabilities.IsSpace(s[i])
  }

  lemma NoSpaceConcat(a: string, b: string)
    requires NoSpace(a) && NoSpace(b)
    ensures NoSpace(a + b)
  {
  }

  lemma {:induction false} JoinNoSpace(ids: seq<string>)
    requires forall id :: id in ids ==> NoSpace(id)
    ensures NoSpace(Join(ids, '|'))
  {
    if |ids| > 1 {
      JoinNoSpace(ids[1..]);
      NoSpaceConcat(['|'], Join(ids[1..], '|'));
      NoSpaceConcat(ids[0], ['|'] + Join(ids[1..], '|'));
    }
  }

  ghost predicate StoredIds(ids: seq<string>) {
    forall id :: id in ids ==> StoredId(id)
  }

  lemma {:induction false} NonEmptyStored(ids: seq<string>)
    requires StoredIds(ids)
    ensures NonEmpty(ids) == ids
  {
    if ids != [] {
      assert StoredId(ids[0]);
      NonEmptyStored(ids[1..]);
      assert ids == [ids[0]] + ids[1..];
    }
  }

  lemma PlainSignature(text: string)
    requires text != "" && NoSpace(text)
    ensures TextSignature(text) == Capabilities.Lower(text)
  {
    var low := Capabilities.Lower(text);
    assert NoSpace(low);
    assert low + "" == low;
    Capabilities.FieldsOfWord(low, "");
    assert Capabilities.Fields("") == [];
  }

  lemma StoredNoSpace(ids: seq<string>)
    requires StoredIds(ids)
    ensures NoSpace(Join(ids, '|'))
  {
    forall id | id in ids ensures NoSpace(id) {
      assert StoredId(id);
      assert forall i :: 0 <= i < |id| ==> i < 2 || HexChar(id[i]);
    }
    JoinNoSpace(ids);
  }

  lemma PlainPrefix()
    ensures NoSpace("chain|") && Capabilities.Lower("chain|") == "chain|"
  {
  }

  lemma AscendingStored(ids: seq<string>)
    requires StoredIds(ids)
    ensures StoredIds(Ascending(ids))
  {
    forall id | id in Ascending(ids) ensures StoredId(id) { assert id in multiset(Ascending(ids)); }
  }

  /** For stored ids the signature is the lowercase join of the sorted ids. */
  lemma StoredSignature(ids: seq<string>)
    requires StoredIds(ids)
    ensures ChainSignature(ids) == "chain|" + Join(LowerAll(Ascending(ids)), '|')
  {
    NonEmptyStored(ids);
    AscendingStored(ids);
    StoredNoSpace(Ascending(ids));
    var body := Join(Ascending(ids), '|');
    PlainPrefix();
    NoSpaceConcat("chain|", body);
    PlainSignature("chain|" + body);
    Capabilities.LowerConcat("chain|", body);
    LowerJoin(Ascending(ids));
  }

  lemma LowerNoPipe(ids: seq<string>)
    requires StoredIds(ids)
    ensures forall s :: s in LowerAll(ids) ==> '|' !in s
  {
    forall s | s in LowerAll(ids) ensures '|' !in s {
      var i :| 0 <= i < |ids| && LowerAll(ids)[i] == s;
      assert ids[i] in ids && StoredId(ids[i]);
      forall k | 0 <= k < |s| ensures s[k] != '|' {
        assert s[k] == Capabilities.LowerChar(ids[i][k]);
        assert k < 2 || HexChar(ids[i][k]);
      }
    }
  }

  /** Two lists of stored ids share a signature exactly when one rearranges the other. */
  lemma SignatureExact(p: seq<string>, q: seq<string>)
    requires StoredIds(p) && StoredIds(q) && p != [] && q != []
    ensures ChainSignature(p) == ChainSignature(q) <==> multiset(p) == multiset(q)
  {
    if multiset(p) == multiset(q) {
      SignatureIgnoresOrder(p, q);
    }
    if ChainSignature(p) == ChainSignature(q) {
      var a, b := Ascending(p), Ascending(q);
      AscendingStored(p);
      AscendingStored(q);
      StoredSignature(p);
      StoredSignature(q);
      var prefix := "chain|";
      assert (prefix + Join(LowerAll(a), '|'))[|prefix|..] == Join(LowerAll(a), '|');
      assert (prefix + Join(LowerAll(b), '|'))[|prefix|..] == Join(LowerAll(b), '|');
      LowerNoPipe(a);
      LowerNoPipe(b);
      SplitJoin(LowerAll(a), '|');
      SplitJoin(LowerAll(b), '|');
      assert LowerAll(a) == LowerAll(b);
      LowerAllInjective(a, b);
    }
  }

  lemma LowerAllInjective(a: seq<string>, b: seq<string>)
    requires StoredIds(a) && StoredIds(b) && LowerAll(a) == LowerAll(b)
    ensures a == b
  {
    assert |a| == |LowerAll(a)| == |LowerAll(b)| == |b|;
    forall i | 0 <= i < |a| ensures a[i] == b[i] {
      assert a[i] in a && b[i] in b;
      assert LowerAll(a)[i] == LowerAll(b)[i];
      LowerInjective(a[i], b[i]);
    }
  }

  // ----- Runs -----------------------------------------------------------------------------

  /** What may happen to the store: a materialization, or any outside change of the
      findings. */
  datatype Event = Materialization(req: Request, out: Outcome) | Edit

  ghost predicate Next(s: State, e: Event, t: State) {
    match e
    case Materialization(req, out) => Step(s, req, out, t)
    case Edit => t.chains == s.chains
  }

  ghost predicate Trace(states: seq<State>, events: seq<Event>) {
    && |states| == |events| + 1
    && states[0].chains == []
    && forall i :: 0 <= i < |events| ==> Next(states[i], events[i], states[i + 1])
  }

  ghost predicate Signed(chains: seq<ChainDoc>) {
    forall c :: c in chains ==> c.signature == ChainSignature(c.members)
  }

  ghost predicate SignaturesDistinct(chains: seq<ChainDoc>) {
    forall i, j :: 0 <= i < j < |chains| ==> chains[i].signature != chains[j].signature
  }

  /** All that a step does to the stored chains. */
  ghost predicate Grows(chains: seq<ChainDoc>, chains': seq<ChainDoc>) {
    chains' == chains
    || (chains' != [] && var doc := chains'[|chains'| - 1];
        chains' == chains + [doc] && doc.signature == ChainSignature(doc.members)
          && !IsDuplicate(chains, doc.signature))
  }

  lemma NextGrows(s: State, e: Event, t: State)
    requires Next(s, e, t)
    ensures Grows(s.chains, t.chains)
  {
    if e.Materialization? && Gate(s, e.req) == None {
      StoredOnce(s, e.req);
      assert t.chains[|t.chains| - 1] == e.out.doc;
    }
  }

  lemma StoredOnce(s: State, req: Request)
    requires Gate(s, req) == None
    ensures !IsDuplicate(s.chains, ChainSignature(req.members))
  {
  }

  lemma GrowsKeeps(chains: seq<ChainDoc>, chains': seq<ChainDoc>)
    requires Grows(chains, chains') && Signed(chains) && SignaturesDistinct(chains)
    ensures Signed(chains') && SignaturesDistinct(chains')
  {
    if chains' != chains {
      var doc := chains'[|chains'| - 1];
      forall j | 0 <= j < |chains| ensures chains[j].signature != doc.signature {
        assert chains[j] in chains;
      }
    }
  }

  lemma {:induction false} GrowthKeeps(stores: seq<seq<ChainDoc>>, n: nat)
    requires n < |stores| && stores[0] == []
    requires forall i :: 0 <= i < |stores| - 1 ==> Grows(stores[i], stores[i + 1])
    ensures Signed(stores[n]) && SignaturesDistinct(stores[n])
  {
    if n > 0 {
      GrowthKeeps(stores, n - 1);
      GrowsKeeps(stores[n - 1], stores[n - 1 + 1]);
    }
  }

  lemma TraceKeeps(states: seq<State>, events: seq<Event>, n: nat)
    requires Trace(states, events) && n < |states|
    ensures Signed(states[n].chains) && SignaturesDistinct(states[n].chains)
  {
    var stores := seq(|states|, i requires 0 <= i < |states| => states[i].chains);
    forall i | 0 <= i < |stores| - 1 ensures Grows(stores[i], stores[i + 1]) {
      NextGrows(states[i], events[i], states[i + 1]);
    }
    GrowthKeeps(stores, n);
  }

  /** However the store got there, no two stored chains have the same members: not in any
      order, and not one proven and one unproven. */
  lemma NoTwoChainsAlike(states: seq<State>, events: seq<Event>, n: nat, i: nat, j: nat)
    requires Trace(states, events) && n < |states|
    requires i < j < |states[n].chains|
    ensures multiset(states[n].chains[i].members) != multiset(states[n].chains[j].members)
  {
    TraceKeeps(states, events, n);
    var a, b := states[n].chains[i], states[n].chains[j];
    assert a in states[n].chains && b in states[n].chains;
    if multiset(a.members) == multiset(b.members) {
      SignatureIgnoresOrder(a.members, b.members);
    }
  }

  /** A rearrangement of a stored chain's members is never materialized again, in either
      mode and whatever happened to the findings since. */
  lemma ReorderingRefused(states: seq<State>, events: seq<Event>, n: nat, c: ChainDoc, req: Request)
    requires Trace(states, events) && n < |states|
    requires c in states[n].chains && multiset(req.members) == multiset(c.members)
    ensures Gate(states[n], req) != None
  {
    TraceKeeps(states, events, n);
    SignatureIgnoresOrder(req.members, c.members);
  }

  /** And only such a rearrangement is refused as a duplicate. */
  lemma DuplicateMeansSameMembers(states: seq<State>, events: seq<Event>, n: nat, req: Request)
    requires Trace(states, events) && n < |states|
    requires StoredIds(req.members)
    requires forall c :: c in states[n].chains ==> StoredIds(c.members) && c.members != []
    requires Gate(states[n], req) == Some(Duplicate)
    ensures exists c :: c in states[n].chains && multiset(c.members) == multiset(req.members)
  {
    TraceKeeps(states, events, n);
    assert |req.members| >= 2;
    var c :| c in states[n].chains && c.signature == ChainSignature(req.members);
    SignatureExact(c.members, req.members);
  }

  // ----- Where a stored chain comes from -----------------------------------------------------

  /** The event is the materialization that stored `c`. */
  ghost predicate StoredAt(s: State, e: Event, c: ChainDoc) {
    && e.Materialization?
    && Gate(s, e.req) == None
    && e.out == Made(c)
    && IsDoc(s, e.req, c)
  }

  lemma NewChain(s: State, e: Event, t: State, c: ChainDoc)
    requires Next(s, e, t) && c in t.chains && c !in s.chains
    ensures StoredAt(s, e, c)
  {
  }

  lemma {:induction false} StoredBy(states: seq<State>, events: seq<Event>, n: nat, c: ChainDoc) returns (i: nat)
    requires Trace(states, events) && n < |states| && c in states[n].chains
    ensures i < n && i < |events| && StoredAt(states[i], events[i], c)
  {
    if c in states[n - 1].chains {
      i := StoredBy(states, events, n - 1, c);
    } else {
      i := n - 1;
      NewChain(states[i], events[i], states[n], c);
    }
  }

  /** What was true of the members when a chain was stored. */
  ghost predicate ProvenThen(s: State, c: ChainDoc) {
    && AllFound(s.findings, c.members)
    && var members := Found(s.findings, c.members);
       && |members| >= 2
       && Continuous(members)
       && LinksMatch(c.links, members, c.unproven)
       && FloorIs(members, c.floor)
       && (if c.unproven then AllPinned(members)
           else OnePin(members) && forall m :: m in members ==> Confirmed(m))
  }

  /** Every chain in the store was stored by some step of the run, and at that step its
      members existed, each fed the next, the floor was the minimum over members of their
      maximum level, and, for a proven chain, all members were confirmed on one pin. */
  lemma EveryChainWasProven(states: seq<State>, events: seq<Event>, n: nat, c: ChainDoc) returns (i: nat)
    requires Trace(states, events) && n < |states| && c in states[n].chains
    ensures i < n && i < |events| && StoredAt(states[i], events[i], c) && ProvenThen(states[i], c)
  {
    i := StoredBy(states, events, n, c);
    StoredProven(states[i], events[i], c);
  }

  lemma StoredProven(s: State, e: Event, c: ChainDoc)
    requires StoredAt(s, e, c)
    ensures ProvenThen(s, c)
  {
    assert e.req.members == c.members && e.req.unproven == c.unproven;
    assert ChainGate(Found(s.findings, c.members), c.unproven) == None;
  }

  // ----- Findings ---------------------------------------------------------------------------

  /** The proven chains of the store, in order. */
  ghost function ProvenChains(chains: seq<ChainDoc>): seq<ChainDoc> {
    if chains == [] then []
    else
      var doc := chains[|chains| - 1];
      ProvenChains(chains[..|chains| - 1]) + if doc.unproven then [] else [doc]
  }

  lemma ProvenPush(chains: seq<ChainDoc>, doc: ChainDoc)
    ensures ProvenChains(chains + [doc]) == ProvenChains(chains) + if doc.unproven then [] else [doc]
  {
    assert (chains + [doc])[..|chains|] == chains;
  }

  /** `f` was saved by the step that stored `doc`, out of the members as they were then. */
  ghost predicate SavedFor(states: seq<State>, events: seq<Event>, n: nat, doc: ChainDoc, f: Finding)
    requires n <= |states| && n <= |events|
  {
    exists i :: 0 <= i < n && StoredAt(states[i], events[i], doc)
                && IsSuperFinding(f, Found(states[i].findings, doc.members), events[i].req.findingId, doc.terminal)
  }

  ghost function SavedBy(states: seq<State>, events: seq<Event>, n: nat): iset<(ChainDoc, Finding)>
    requires n <= |states| && n <= |events|
  {
    iset doc, f | SavedFor(states, events, n, doc, f) :: (doc, f)
  }

  /** Each proven chain has its super-finding, in the order of storing, and nothing else was
      added. */
  ghost predicate Matched(saved: iset<(ChainDoc, Finding)>, before: seq<Finding>, after: seq<Finding>,
                          proven: seq<ChainDoc>)
  {
    && before <= after
    && |after| == |before| + |proven|
    && forall k :: 0 <= k < |proven| ==> (proven[k], after[|before| + k]) in saved
  }

  /** The step stored a proven chain and saved its super-finding, behind all others. */
  ghost predicate Adds(s: State, e: Event, t: State) {
    && e.Materialization? && e.out.Made? && StoredAt(s, e, e.out.doc)
    && t.findings != [] && t.findings == s.findings + [t.findings[|t.findings| - 1]]
    && ProvenChains(t.chains) == ProvenChains(s.chains) + [e.out.doc]
    && IsSuperFinding(t.findings[|t.findings| - 1], Found(s.findings, e.out.doc.members), e.req.findingId,
                      e.out.doc.terminal)
  }

  ghost predicate AddsNothing(s: State, t: State) {
    t.findings == s.findings && ProvenChains(t.chains) == ProvenChains(s.chains)
  }

  lemma StepAdds(s: State, e: Event, t: State)
    requires Next(s, e, t) && e.Materialization?
    ensures Adds(s, e, t) || AddsNothing(s, t)
  {
    if Gate(s, e.req) == None {
      ProvenPush(s.chains, e.out.doc);
      if !e.req.unproven {
        TailOne(t.findings, s.findings);
      }
    }
  }

  lemma TailOne<T>(longer: seq<T>, s: seq<T>)
    requires |longer| == |s| + 1 && longer[..|s|] == s
    ensures longer == s + [longer[|s|]]
  {
  }

  lemma SavedStill(states: seq<State>, events: seq<Event>, n: nat)
    requires n < |states| && n < |events|
    ensures SavedBy(states, events, n) <= SavedBy(states, events, n + 1)
  {
  }

  lemma MatchedMore(saved: iset<(ChainDoc, Finding)>, before: seq<Finding>, after: seq<Finding>, proven: seq<ChainDoc>,
                    f: Finding, doc: ChainDoc)
    requires Matched(saved, before, after, proven) && (doc, f) in saved
    ensures Matched(saved, before, after + [f], proven + [doc])
  {
  }

  lemma SavedNow(states: seq<State>, events: seq<Event>, n: nat, f: Finding)
    requires n + 1 < |states| && n < |events| && Adds(states[n], events[n], states[n + 1])
    requires f == states[n + 1].findings[|states[n + 1].findings| - 1]
    ensures (events[n].out.doc, f) in SavedBy(states, events, n + 1)
  {
  }

  lemma AddedParts(s: State, e: Event, t: State)
    requires Adds(s, e, t)
    ensures t.findings != [] && t.findings == s.findings + [t.findings[|t.findings| - 1]] && e.Materialization?
            && e.out.Made?
    ensures ProvenChains(t.chains) == ProvenChains(s.chains) + [e.out.doc]
  {
  }

  /** Along any run of materializations, the findings already there never change, and the ones
      added are, one for one and in order, the super-findings of the proven chains stored. */
  lemma {:induction false} FindingsGrowth(states: seq<State>, events: seq<Event>, n: nat)
    requires Trace(states, events) && n < |states|
    requires forall i :: 0 <= i < n ==> events[i].Materialization?
    ensures Matched(SavedBy(states, events, n), states[0].findings, states[n].findings, ProvenChains(states[n].chains))
  {
    if n > 0 {
      FindingsGrowth(states, events, n - 1);
      TraceAdds(states, events, n - 1);
    } else {
      assert ProvenChains(states[0].chains) == [];
    }
  }

  lemma TraceStep(states: seq<State>, events: seq<Event>, n: nat)
    requires Trace(states, events) && n < |events|
    ensures Next(states[n], events[n], states[n + 1])
  {
  }

  lemma TraceAdds(states: seq<State>, events: seq<Event>, n: nat)
    requires Trace(states, events) && n < |events| && events[n].Materialization?
    requires Matched(SavedBy(states, events, n), states[0].findings, states[n].findings, ProvenChains(states[n].chains))
    ensures Matched(SavedBy(states, events, n + 1), states[0].findings, states[n + 1].findings,
                    ProvenChains(states[n + 1].chains))
  {
    TraceStep(states, events, n);
    StepAdds(states[n], events[n], states[n + 1]);
    SavedStill(states, events, n);
    if Adds(states[n], events[n], states[n + 1]) {
      AddedParts(states[n], events[n], states[n + 1]);
      var f := states[n + 1].findings[|states[n + 1].findings| - 1];
      SavedNow(states, events, n, f);
      MatchedMore(SavedBy(states, events, n + 1), states[0].findings, states[n].findings,
                  ProvenChains(states[n].chains), f, events[n].out.doc);
    }
  }

  /** The super-finding offers later searches exactly what its members offer together, but
      for the empty label, which the next normalization drops. */
  lemma SuperFindingLabels(f: Finding, members: seq<Finding>, id: string, terminal: Option<TerminalDoc>)
    requires members != [] && IsSuperFinding(f, members, id, terminal)
    ensures Grants(f) == AllGrants(members) - {""}
    ensures Needs(f) == AllNeeds(members) - {""}
  {
    LabelsAllCanonical(members);
    Relabel(AllGrants(members));
    Relabel(AllNeeds(members));
  }

  lemma LabelsAllCanonical(members: seq<Finding>)
    ensures forall cap :: cap in AllGrants(members) ==> Capabilities.Canonical(cap)
    ensures forall cap :: cap in AllNeeds(members) ==> Capabilities.Canonical(cap)
  {
    forall cap | cap in AllGrants(members) ensures Capabilities.Canonical(cap) {
      var m :| m in members && cap in Grants(m);
      LabelsCanonical(m.granted, cap);
    }
    forall cap | cap in AllNeeds(members) ensures Capabilities.Canonical(cap) {
      var m :| m in members && cap in Needs(m);
      LabelsCanonical(m.required, cap);
    }
  }

  lemma LabelsCanonical(values: seq<string>, cap: string)
    requires cap in Capabilities.LabelSet(values)
    ensures Capabilities.Canonical(cap)
  {
    var v :| v in values && !Capabilities.Blank(v) && Capabilities.NormalizeLabel(v) == cap;
    Capabilities.NormalizeIdempotent(v);
  }

  lemma Relabel(caps: set<string>)
    requires forall cap :: cap in caps ==> Capabilities.Canonical(cap)
    ensures Capabilities.LabelSet(SetKeys(caps)) == caps - {""}
  {
    var keys := SetKeys(caps);
    forall v ensures v in keys <==> v in caps { assert v in SetOf(keys) <==> v in keys; }
    forall v | v in caps ensures Capabilities.NormalizeLabel(v) == v && (Capabilities.Blank(v) <==> v == "") {
      Capabilities.CanonicalFixed(v);
      if v != "" { assert Capabilities.CanonicalChar(v[0]); }
    }
  }

  /** Pricing a liveness terminal never narrows the radius, and never leaves it below
      protocol solvency. */
  lemma LivenessFloor(blast: string)
    ensures BlastRank(LivenessRadius(blast)) >= BlastRank("protocol-solvency") >= 0
    ensures BlastRank(LivenessRadius(blast)) >= BlastRank(blast)
    ensures BlastRank(LivenessRadius(blast)) == BlastRank(blast)
            || BlastRank(LivenessRadius(blast)) == BlastRank("protocol-solvency")
  {
    var b := "protocol-solvency";
    assert BlastRankFrom(b, 3) == 3;
    assert BLAST_ORDER[0] != b && BLAST_ORDER[1] != b && BLAST_ORDER[2] != b;
    assert BlastRankFrom(b, 2) == 3;
    assert BlastRankFrom(b, 1) == 3;
  }

  // ----- Agreement with the searches -----------------------------------------------------------

  lemma {:induction false} FindExact(all: seq<Finding>, id: string)
    ensures Find(all, id).Some? <==> exists f :: f in all && f.id == id
    ensures Find(all, id).Some? ==> Find(all, id).value in all && Find(all, id).value.id == id
    ensures WellKeyed(all) ==> forall f :: f in all && f.id == id ==> Find(all, id) == Some(f)
  {
    if all != [] {
      assert all == [all[0]] + all[1..];
      FindExact(all[1..], id);
      if WellKeyed(all) && all[0].id == id {
        forall f | f in all && f.id == id ensures f == all[0] {
          var i :| 0 <= i < |all| && all[i] == f;
        }
      }
    }
  }

  /** The node the proposal search uses for a live member carries that member's labels. */
  lemma MemberNode(all: seq<Finding>, id: string)
    requires WellKeyed(all) && Find(all, id).Some? && Live(Find(all, id).value)
    ensures var f, nodes := Find(all, id).value, ChainSearch.NodesOf(all);
            && ChainTheorems.HasNode(nodes, id)
            && ChainSearch.NodeAt(nodes, id) == ChainSearch.Node(id, Grants(f), Needs(f))
  {
    var f, nodes := Find(all, id).value, ChainSearch.NodesOf(all);
    FindExact(all, id);
    ChainTheorems.NodesExact(all);
    var n := ChainSearch.Node(f.id, Grants(f), Needs(f));
    assert n in nodes;
    ChainTheorems.NodeAtMember(nodes, n);
  }

  /** A member list that passes the continuity gate is a chain of the proposal search. */
  lemma ContinuousIsChain(all: seq<Finding>, ids: seq<string>)
    requires WellKeyed(all) && AllFound(all, ids) && ids != [] && Distinct(ids)
    requires forall m :: m in Found(all, ids) ==> Live(m)
    requires Continuous(Found(all, ids))
    ensures ChainTheorems.ChainPath(ChainSearch.NodesOf(all), ids)
  {
    var nodes, members := ChainSearch.NodesOf(all), Found(all, ids);
    forall i | 0 <= i < |ids| ensures ChainTheorems.HasNode(nodes, ids[i]) {
      assert members[i] in members;
      MemberNode(all, ids[i]);
    }
    forall i | 1 <= i < |ids| ensures ChainTheorems.Reached(nodes, ids, i) {
      assert members[i - 1] in members && members[i] in members;
      MemberNode(all, ids[i - 1]);
      MemberNode(all, ids[i]);
      assert Overlap(members[i - 1], members[i - 1 + 1]) != {};
      assert ChainTheorems.Feeds(nodes, ids[i - 1], ids[i]);
    }
  }

  /** Whatever can be materialized is proposed: two to five distinct live findings that pass
      the continuity gate have their member set among the proposals, unless the search hit
      its cap. */
  lemma MaterializableIsProposed(all: seq<Finding>, ids: seq<string>, minLength: int)
    requires WellKeyed(all) && AllFound(all, ids) && Distinct(ids)
    requires 2 <= |ids| <= 5 && minLength <= |ids|
    requires forall m :: m in Found(all, ids) ==> Live(m)
    requires Continuous(Found(all, ids))
    requires |ChainSearch.Proposals(ChainSearch.NodesOf(all), minLength)| < ChainSearch.MAX_PROPOSALS
    ensures ChainTheorems.HasMembers(ChainSearch.Proposals(ChainSearch.NodesOf(all), minLength), SetOf(ids))
  {
    ContinuousIsChain(all, ids);
    ChainTheorems.ProposalsComplete(all, minLength, ids);
  }

  lemma {:induction false} FirstOverExact(rows: seq<TerminalSearch.Row>, want: set<string>)
    ensures FirstOver(rows, want).Some? ==>
              exists r :: r in rows && SetOf(r.path) == want &&
                FirstOver(rows, want) == Some(Claim(r.terminal, Some(r.finding), Number(r.totalRequired), NoBreakdown))
    ensures FirstOver(rows, want).None? ==>
              forall r :: r in rows && |r.path| == |want| && SetOf(r.path) == want ==> r.finding == ""
  {
    if rows != [] {
      FirstOverExact(rows[1..], want);
      assert rows == [rows[0]] + rows[1..];
    }
  }

  lemma NodeGrants(all: seq<Finding>, id: string, cap: string)
    requires WellKeyed(all)
    requires var nodes := TerminalSearch.NodesOf(all, true);
             TerminalTheorems.HasNode(nodes, id) && cap in TerminalSearch.NodeAt(nodes, id).granted
    ensures Find(all, id).Some? && cap in Grants(Find(all, id).value)
  {
    var nodes := TerminalSearch.NodesOf(all, true);
    var n :| n in nodes && n.id == id;
    TerminalTheorems.NodesExact(all, true);
    TerminalTheorems.NodeAtMember(nodes, n);
    var f :| f in all && n == TerminalSearch.Node(f.id, Grants(f), Needs(f), TerminalSearch.CapitalNode(f.attacker));
    FindExact(all, id);
  }

  /** A row the hypothesis-mode search returns ends on a finding that grants the capability
      the row names. */
  lemma RowGrants(all: seq<Finding>, depth: int, minLength: int, r: TerminalSearch.Row)
    requires WellKeyed(all) && r in TerminalSearch.TerminalChains(all, None, depth, minLength, true)
    ensures r.path != [] && r.finding == r.path[|r.path| - 1]
    ensures Find(all, r.finding).Some? && r.terminal in Grants(Find(all, r.finding).value)
    ensures Capabilities.IsTerminal(r.terminal)
  {
    TerminalRanking.KeptRowHolds(all, None, depth, minLength, true, r);
    TerminalRanking.RowNamesGrant(TerminalSearch.NodesOf(all, true), TerminalSearch.BaseOf(None), depth, minLength, r);
    NodeGrants(all, r.finding, r.terminal);
  }

  /** The terminal an unproven chain derives for itself always passes its own check: such a
      chain is never refused for a terminal the caller did not name. */
  lemma DerivedTerminalPasses(s: State, req: Request)
    requires WellKeyed(s.findings) && req.unproven && req.claim.None?
    ensures Gate(s, req) != Some(BadTerminal)
  {
    if |req.members| >= 2 && AllFound(s.findings, req.members) {
      DerivedClaimOk(s.findings, req.members);
    }
  }

  lemma DerivedClaimOk(all: seq<Finding>, ids: seq<string>)
    requires WellKeyed(all) && |ids| >= 2 && AllFound(all, ids)
    ensures DerivedClaim(all, ids).Some? ==> ClaimOk(all, ids, Found(all, ids), DerivedClaim(all, ids).value)
  {
    var rows := TerminalSearch.TerminalChains(all, None, 5, |ids|, true);
    FirstOverExact(rows, SetOf(ids));
    var claim := DerivedClaim(all, ids);
    if claim.Some? {
      var r :| r in rows && SetOf(r.path) == SetOf(ids) &&
        claim == Some(Claim(r.terminal, Some(r.finding), Number(r.totalRequired), NoBreakdown));
      RowGrants(all, 5, |ids|, r);
      TerminalLabelNotEmpty(r.terminal);
      assert r.finding in SetOf(r.path);
      assert r.finding in SetOf(ids);
    }
  }

  lemma TerminalLabelNotEmpty(cap: string)
    requires Capabilities.IsTerminal(cap)
    ensures cap != ""
  {
    Capabilities.TerminalLabels(cap);
    Capabilities.CanonicalFixed("");
    assert "" !in Capabilities.ASSETS;
  }

  // ----- What a stored terminal says ---------------------------------------------------------------

  /** The terminal a document stores is a terminal capability exactly when the caller's claim is
      one, or the caller made none: the check asks only that a member grants it. */
  lemma StoredTerminalIff(s: State, req: Request, doc: ChainDoc, t: State)
    requires WellKeyed(s.findings) && Step(s, req, Made(doc), t) && doc.terminal.Some?
    ensures Capabilities.IsTerminal(doc.terminal.value.capability) <==>
            (req.claim.Some? ==> Capabilities.IsTerminal(req.claim.value.capability))
  {
    if req.claim.None? {
      DerivedIsTerminal(s.findings, req.members);
    }
  }

  lemma DerivedIsTerminal(all: seq<Finding>, ids: seq<string>)
    requires WellKeyed(all) && DerivedClaim(all, ids).Some?
    ensures Capabilities.IsTerminal(DerivedClaim(all, ids).value.capability)
  {
    var rows := TerminalSearch.TerminalChains(all, None, 5, |ids|, true);
    FirstOverExact(rows, SetOf(ids));
    var r :| r in rows && SetOf(r.path) == SetOf(ids) &&
      DerivedClaim(all, ids) == Some(Claim(r.terminal, Some(r.finding), Number(r.totalRequired), NoBreakdown));
    RowGrants(all, 5, |ids|, r);
  }

  /** Whatever label the last member grants, a request the gates accept is still accepted when
      it claims that label as the terminal. */
  lemma AnyGrantAccepted(s: State, req: Request, cap: string)
    requires Gate(s, req) == None && cap != ""
    requires cap in Grants(Found(s.findings, req.members)[|req.members| - 1])
    ensures Gate(s, req.(claim := Some(Claim(cap, None, Absent, NoBreakdown)))) == None
  {
    var n := |req.members| - 1;
    FindExact(s.findings, req.members[n]);
    assert req.members[n] in req.members;
  }

  function Proven(id: string, granted: seq<string>, required: seq<string>): Finding {
    Finding(id, "CONFIRMED", granted, required, Attacker(Absent, Absent, Absent, Absent, Absent, Absent), Some("p"), [],
            "")
  }

  lemma ClaimStored(s: State, req: Request, out: Outcome, t: State)
    requires Gate(s, req) == None && req.claim.Some? && Step(s, req, out, t)
    ensures out.Made? && out.doc.terminal.Some? && out.doc.terminal.value.capability == req.claim.value.capability
  {
  }

  lemma XAccepted()
    ensures var s := State([Proven("F-1", ["x"], []), Proven("F-2", ["x"], ["x"])], []);
            Gate(s, Request(["F-1", "F-2"], Some(Claim("x", None, Absent, NoBreakdown)), false, "C-1", "F-3")) == None
  {
    var a, b := Proven("F-1", ["x"], []), Proven("F-2", ["x"], ["x"]);
    var s := State([a, b], []);
    var plain := Request(["F-1", "F-2"], None, false, "C-1", "F-3");
    XLabel();
    assert Find([a, b], "F-1") == Some(a) && Find([a, b][1..], "F-2") == Some(b) && Find([a, b], "F-2") == Some(b);
    var members := Found(s.findings, plain.members);
    assert members == [a, b];
    assert "x" in Overlap(a, b);
    assert PinnedTo(members, "p");
    assert ChainGate(members, false) == None;
    assert Gate(s, plain) == None;
    AnyGrantAccepted(s, plain, "x");
  }

  /** Two confirmed findings joined by the label "x", which is no terminal label: every step that
      claims "x" stores a chain with "x" as its terminal. */
  lemma NonTerminalStored(out: Outcome, t: State)
    requires var s := State([Proven("F-1", ["x"], []), Proven("F-2", ["x"], ["x"])], []);
             Step(s, Request(["F-1", "F-2"], Some(Claim("x", None, Absent, NoBreakdown)), false, "C-1", "F-3"), out, t)
    ensures out.Made? && out.doc.terminal.Some? && out.doc.terminal.value.capability == "x"
            && !Capabilities.IsTerminal("x")
  {
    var s := State([Proven("F-1", ["x"], []), Proven("F-2", ["x"], ["x"])], []);
    var req := Request(["F-1", "F-2"], Some(Claim("x", None, Absent, NoBreakdown)), false, "C-1", "F-3");
    XAccepted();
    XLabel();
    ClaimStored(s, req, out, t);
  }

  lemma XNormal()
    ensures Capabilities.NormalizeLabel("x") == "x" && !Capabilities.Blank("x")
  {
    assert Capabilities.CanonicalChar('x');
    Capabilities.CanonicalFixed("x");
  }

  lemma XNotTerminal()
    ensures "x" !in Capabilities.ASSETS + ["liveness_loss"]
  {
    forall a | a in Capabilities.ASSETS + ["liveness_loss"] ensures |a| > 1 {}
  }

  lemma XLabel()
    ensures Capabilities.LabelSet(["x"]) == {"x"} && !Capabilities.IsTerminal("x")
  {
    XNormal();
    XNotTerminal();
    Capabilities.TerminalLabels("x");
    Capabilities.LabelSetPush([], "x");
    assert [] + ["x"] == ["x"];
  }
}
