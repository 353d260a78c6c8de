/** The terminal report against its promise: the shortest path per terminal capability. */
module ReportTheorems {
  import opened Ordering
  import opened Findings
  import Capabilities
  import opened TerminalSearch
  import opened TerminalTheorems
  import opened TerminalRanking

  // ----- The promise ------------------------------------------------------------------------

  ghost function Found(all: seq<Finding>, baseline: Option<set<string>>): seq<Row> {
    Enumerated(NodesOf(all, false), BaseOf(baseline), 5, 1)
  }

  ghost function Returned(all: seq<Finding>, baseline: Option<set<string>>): seq<Row> {
    TerminalChains(all, baseline, 5, 1, false)
  }

  /** The list is full of rows that rank no worse. */
  ghost predicate CutOff(all: seq<Finding>, baseline: Option<set<string>>, q: Row) {
    |Returned(all, baseline)| == MAX_PROPOSALS && forall r :: r in Returned(all, baseline) ==> RowLeq(r, q)
  }

  /** The report has a row for the capability that ranks no worse than `q`. */
  ghost predicate Answered(report: Report, cap: string, q: Row) {
    exists r :: r in report.shortest && r.terminal == cap && RowLeq(r, q)
  }

  /** Of every path found and every terminal capability it ends in, the report has the shortest
      and cheapest path, unless the cap cut it off. */
  ghost predicate ShortestPerCapability(all: seq<Finding>, baseline: Option<set<string>>, report: Report) {
    forall q, cap :: q in Found(all, baseline) && cap in q.terminals ==>
      Answered(report, cap, q) || CutOff(all, baseline, q)
  }

  /** The liveness sentence appears exactly when a returned path ends in a liveness terminal. */
  ghost predicate LivenessSurfaces(all: seq<Finding>, baseline: Option<set<string>>, report: Report) {
    report.liveness <==>
    exists q, cap :: q in Returned(all, baseline) && cap in q.terminals && Capabilities.IsLivenessTerminal(cap)
  }

  /** A finding store that holds some of the findings. */
  ghost predicate Drawn(some: seq<Finding>, all: seq<Finding>) {
    WellKeyed(some) && forall f :: f in some ==> f in all
  }

  ghost predicate AlwaysShortest(all: seq<Finding>) {
    forall some, base, report :: Drawn(some, all) && IsReport(some, base, report) ==>
      ShortestPerCapability(some, base, report)
  }

  ghost predicate AlwaysSurfaces(all: seq<Finding>) {
    forall some, base, report :: Drawn(some, all) && IsReport(some, base, report) ==>
      LivenessSurfaces(some, base, report)
  }

  // ----- What a row lists ---------------------------------------------------------------------

  /** The terminal capabilities a finding grants. */
  ghost function TerminalsOf(f: Finding): set<string> {
    TerminalCaps(Grants(f))
  }

  lemma Listed(s: set<string>, cap: string)
    ensures cap in SetKeys(s) <==> cap in s
  {
    assert cap in SetKeys(s) <==> cap in SetOf(SetKeys(s));
  }

  lemma LeastFirst(s: set<string>, cap: string)
    requires cap in s
    ensures SetKeys(s) != [] && SetKeys(s)[0] in s && Leq(SetKeys(s)[0], cap)
  {
    Listed(s, cap);
    SetKeysSorted(s);
    IncreasingIsSorted(SetKeys(s));
    Listed(s, SetKeys(s)[0]);
    var i :| 0 <= i < |SetKeys(s)| && SetKeys(s)[i] == cap;
    LeqIsTotalOrder();
  }

  /** A row found lists the terminal capabilities of a confirmed finding, the least one first. */
  lemma RowLists(all: seq<Finding>, baseline: Option<set<string>>, q: Row) returns (f: Finding)
    requires WellKeyed(all) && q in Found(all, baseline)
    ensures f in all && Confirmed(f) && TerminalsOf(f) != {}
    ensures q.terminals == SetKeys(TerminalsOf(f)) && q.terminals != [] && q.terminal == q.terminals[0]
  {
    var nodes := NodesOf(all, false);
    EnumerationExact(all, false, BaseOf(baseline), 5, 1);
    NodesExact(all, false);
    var id := q.path[|q.path| - 1];
    var n :| n in nodes && n.id == id;
    NodeAtMember(nodes, n);
    f :| f in all && Admitted(f, false) && n == Node(f.id, Grants(f), Needs(f), CapitalNode(f.attacker));
    var cap :| cap in n.granted && Capabilities.IsTerminal(cap);
    assert cap in TerminalsOf(f);
    LeastFirst(TerminalsOf(f), cap);
  }

  lemma ReturnedFound(all: seq<Finding>, baseline: Option<set<string>>, q: Row)
    requires q in Returned(all, baseline)
    ensures q in Found(all, baseline)
  {
    RankingKeepsBest(all, baseline, 5, 1, false);
    var kept, rows := Returned(all, baseline), Found(all, baseline);
    assert q in multiset(kept);
    assert q in multiset(rows);
  }

  // ----- Where the promise holds ----------------------------------------------------------------

  lemma BeatsFound(all: seq<Finding>, baseline: Option<set<string>>, r: Row, q: Row)
    requires Optimal(Returned(all, baseline), r) && q in Found(all, baseline) && q.terminal == r.terminal
    ensures RowLeq(r, q)
  {
    ShortestOverall(all, baseline, 5, 1, false, r);
  }

  lemma AbsentIsCut(all: seq<Finding>, baseline: Option<set<string>>, report: Report, q: Row)
    requires IsReport(all, baseline, report) && q in Found(all, baseline)
    requires forall r :: r in report.shortest ==> r.terminal != q.terminal
    ensures CutOff(all, baseline, q)
  {
    MissingOnlyByCap(all, baseline, report.shortest, q);
  }

  /** For the label a row carries first, the promise is kept. */
  lemma FirstLabelAnswered(all: seq<Finding>, baseline: Option<set<string>>, report: Report, q: Row)
    requires IsReport(all, baseline, report) && q in Found(all, baseline)
    ensures Answered(report, q.terminal, q) || CutOff(all, baseline, q)
  {
    if r :| r in report.shortest && r.terminal == q.terminal {
      BeatsFound(all, baseline, r, q);
    } else {
      AbsentIsCut(all, baseline, report, q);
    }
  }

  lemma OneLabel(s: set<string>, a: string, b: string)
    requires |s| <= 1 && a in s && b in s
    ensures a == b
  {
    assert |s - {a}| == |s| - 1;
    assert b !in s - {a};
  }

  lemma SingleLabelsShortest(all: seq<Finding>, baseline: Option<set<string>>, report: Report)
    requires WellKeyed(all) && IsReport(all, baseline, report)
    requires forall f :: f in all && Confirmed(f) ==> |TerminalsOf(f)| <= 1
    ensures ShortestPerCapability(all, baseline, report)
  {
    forall q, cap | q in Found(all, baseline) && cap in q.terminals
      ensures Answered(report, cap, q) || CutOff(all, baseline, q)
    {
      var f := RowLists(all, baseline, q);
      Listed(TerminalsOf(f), cap);
      Listed(TerminalsOf(f), q.terminal);
      OneLabel(TerminalsOf(f), cap, q.terminal);
      FirstLabelAnswered(all, baseline, report, q);
    }
  }

  // ----- Where it fails ---------------------------------------------------------------------------

  ghost function SoleNodes(f: Finding): seq<Node> {
    [Node(f.id, Grants(f), Needs(f), CapitalNode(f.attacker))]
  }

  lemma SoleReachable(f: Finding, p: seq<string>)
    ensures Reachable(SoleNodes(f), Needs(f), p) <==> p == [f.id]
  {
    var nodes := SoleNodes(f);
    assert nodes[0] in nodes && HasNode(nodes, f.id);
    if Reachable(nodes, Needs(f), p) {
      forall i | 0 <= i < |p| ensures p[i] == f.id { assert HasNode(nodes, p[i]); }
      assert p[0] == p[|p| - 1];
    }
    if p == [f.id] {
      assert Needs(f) <= Needs(f) + GrantsOf(nodes, p[..0]);
    }
  }

  ghost function SoleRow(f: Finding): Row
    requires TerminalsOf(f) != {}
  {
    var cap :| cap in TerminalsOf(f);
    assert NodeAt(SoleNodes(f), [f.id][|[f.id]| - 1]).granted == Grants(f);
    assert EndsTerminal(SoleNodes(f), [f.id]);
    RowFor(SoleNodes(f), [f.id])
  }

  lemma SoleNodesOf(f: Finding)
    requires Confirmed(f)
    ensures NodesOf([f], false) == SoleNodes(f)
  {
    assert NodesOf([f][1..], false) == [];
  }

  lemma OnlyOne<T>(s: seq<T>, x: T)
    requires Distinct(s) && forall y :: y in s <==> y == x
    ensures s == [x]
  {
    assert x in s;
    assert s[0] in s && s[|s| - 1] in s;
  }

  /** A confirmed finding alone, with its requirements as the baseline, gives one row. */
  lemma SoleFound(f: Finding)
    requires Confirmed(f) && '|' !in f.id && TerminalsOf(f) != {}
    ensures Found([f], Some(Needs(f))) == [SoleRow(f)]
  {
    var rows := Found([f], Some(Needs(f)));
    EnumerationExact([f], false, Needs(f), 5, 1);
    SoleNodesOf(f);
    forall r ensures r in rows <==> r == SoleRow(f) {
      SoleReachable(f, r.path);
      SoleReachable(f, [f.id]);
    }
    forall i, j | 0 <= i < j < |rows| ensures rows[i] != rows[j] { assert rows[i].path != rows[j].path; }
    OnlyOne(rows, SoleRow(f));
  }

  lemma SoleReturned(f: Finding)
    requires Confirmed(f) && '|' !in f.id && TerminalsOf(f) != {}
    ensures Returned([f], Some(Needs(f))) == [SoleRow(f)]
  {
    var kept, base := Returned([f], Some(Needs(f))), Some(Needs(f));
    SoleFound(f);
    RankingKeepsBest([f], base, 5, 1, false);
    assert |kept| == 1;
    assert kept[0] in kept;
    ReturnedFound([f], base, kept[0]);
  }

  ghost function SoleReport(f: Finding): Report
    requires TerminalsOf(f) != {}
  {
    var r := SoleRow(f);
    Report(SetKeys(Needs(f)), OfLength([r], true), OfLength([r], false), [r],
           Capabilities.IsLivenessTerminal(r.terminal))
  }

  lemma SoleReported(f: Finding)
    requires Confirmed(f) && '|' !in f.id && TerminalsOf(f) != {}
    ensures IsReport([f], Some(Needs(f)), SoleReport(f))
  {
    SoleReturned(f);
  }

  lemma SoleLists(f: Finding, cap: string)
    requires cap in TerminalsOf(f)
    ensures cap in SoleRow(f).terminals && SoleRow(f).terminal in TerminalsOf(f) && Leq(SoleRow(f).terminal, cap)
  {
    Listed(TerminalsOf(f), cap);
    LeastFirst(TerminalsOf(f), cap);
  }

  /** A terminal capability behind the first one of the finding's row is in no shortest row. */
  lemma HiddenLabel(f: Finding, cap: string, report: Report)
    requires Confirmed(f) && '|' !in f.id && cap in TerminalsOf(f) && cap != SoleRow(f).terminal
    requires IsReport([f], Some(Needs(f)), report)
    ensures SoleRow(f) in Found([f], Some(Needs(f))) && cap in SoleRow(f).terminals
    ensures forall r :: r in report.shortest ==> r.terminal != cap
    ensures !ShortestPerCapability([f], Some(Needs(f)), report)
  {
    SoleFound(f);
    SoleReturned(f);
    SoleLists(f, cap);
    assert SoleRow(f) in Found([f], Some(Needs(f)));
  }

  lemma SecondLabel(f: Finding) returns (cap: string)
    requires |TerminalsOf(f)| > 1
    ensures cap in TerminalsOf(f) && cap != SoleRow(f).terminal
  {
    var first := SoleRow(f).terminal;
    assert |TerminalsOf(f) - {first}| >= |TerminalsOf(f)| - 1;
    cap :| cap in TerminalsOf(f) - {first};
  }

  lemma SoleDrawn(all: seq<Finding>, f: Finding)
    requires WellKeyed(all) && f in all
    ensures Drawn([f], all) && '|' !in f.id
  {
  }

  lemma ShortestFails(all: seq<Finding>, some: seq<Finding>, base: Option<set<string>>, report: Report)
    requires Drawn(some, all) && IsReport(some, base, report) && !ShortestPerCapability(some, base, report)
    ensures !AlwaysShortest(all)
  {
  }

  lemma TwoLabelsFail(all: seq<Finding>, f: Finding)
    requires WellKeyed(all) && f in all && Confirmed(f) && |TerminalsOf(f)| > 1
    ensures !AlwaysShortest(all)
  {
    var cap := SecondLabel(f);
    SoleDrawn(all, f);
    SoleReported(f);
    HiddenLabel(f, cap, SoleReport(f));
    ShortestFails(all, [f], Some(Needs(f)), SoleReport(f));
  }

  /** The report of every store drawn from the findings, for every baseline, has the shortest path
      of each terminal capability exactly when no confirmed finding grants two of them. */
  lemma ShortestPerCapabilityIff(all: seq<Finding>)
    requires WellKeyed(all)
    ensures AlwaysShortest(all) <==> forall f :: f in all && Confirmed(f) ==> |TerminalsOf(f)| <= 1
  {
    if f :| f in all && Confirmed(f) && |TerminalsOf(f)| > 1 {
      TwoLabelsFail(all, f);
    } else {
      forall some, base, report | Drawn(some, all) && IsReport(some, base, report)
        ensures ShortestPerCapability(some, base, report)
      {
        SingleLabelsShortest(some, base, report);
      }
    }
  }

  // ----- The liveness sentence --------------------------------------------------------------------

  /** Liveness loss stands behind a label that comes before it. */
  predicate Hidden(granted: set<string>) {
    && "liveness_loss" in granted
    && ("drain_treasury" in granted || "extract_protocol_liquidity" in granted)
  }

  predicate HidesLiveness(f: Finding) {
    Hidden(Grants(f))
  }

  lemma TerminalSpelling(f: Finding, cap: string)
    requires cap in Grants(f)
    ensures cap in TerminalsOf(f) <==> cap in Capabilities.ASSETS + ["liveness_loss"]
    ensures Capabilities.IsLivenessTerminal(cap) <==> cap == "liveness_loss"
  {
    Capabilities.LabelIsNormal(f.granted, cap);
    Capabilities.TerminalLabels(cap);
  }

  lemma FirstCharDecides(a: string, b: string)
    requires a != "" && b != "" && a[0] != b[0]
    ensures Leq(a, b) <==> a[0] < b[0]
  {
  }

  lemma BeforeLiveness(tag: string)
    requires tag in Capabilities.ASSETS + ["liveness_loss"]
    ensures Leq(tag, "liveness_loss") <==>
            tag == "liveness_loss" || tag == "drain_treasury" || tag == "extract_protocol_liquidity"
  {
    if tag == "liveness_loss" {
      LeqIsTotalOrder();
    } else {
      assert tag in Capabilities.ASSETS;
      assert tag[0] != 'l';
      FirstCharDecides(tag, "liveness_loss");
    }
  }

  /** Of the labels a finding grants, liveness loss comes first unless one of two hides it. */
  lemma LivenessFirst(f: Finding)
    requires "liveness_loss" in TerminalsOf(f)
    ensures SetKeys(TerminalsOf(f)) != []
    ensures SetKeys(TerminalsOf(f))[0] == "liveness_loss" <==> !HidesLiveness(f)
  {
    var s, n := TerminalsOf(f), "liveness_loss";
    LeastFirst(s, n);
    var first := SetKeys(s)[0];
    TerminalSpelling(f, first);
    BeforeLiveness(first);
    forall tag | tag == "drain_treasury" || tag == "extract_protocol_liquidity"
      ensures tag in Grants(f) ==> first != n
    {
      if tag in Grants(f) {
        assert tag in Capabilities.ASSETS;
        TerminalSpelling(f, tag);
        LeastFirst(s, tag);
        assert tag[0] < n[0];
      }
    }
  }

  lemma RowSurfaces(all: seq<Finding>, baseline: Option<set<string>>, q: Row)
    requires WellKeyed(all) && q in Returned(all, baseline)
    requires forall f :: f in all && Confirmed(f) ==> !HidesLiveness(f)
    ensures Capabilities.IsLivenessTerminal(q.terminal) <==>
            exists cap :: cap in q.terminals && Capabilities.IsLivenessTerminal(cap)
  {
    ReturnedFound(all, baseline, q);
    var f := RowLists(all, baseline, q);
    if cap :| cap in q.terminals && Capabilities.IsLivenessTerminal(cap) {
      Listed(TerminalsOf(f), cap);
      TerminalSpelling(f, cap);
      LivenessFirst(f);
    }
  }

  lemma UnhiddenSurfaces(all: seq<Finding>, baseline: Option<set<string>>, report: Report)
    requires WellKeyed(all) && IsReport(all, baseline, report)
    requires forall f :: f in all && Confirmed(f) ==> !HidesLiveness(f)
    ensures LivenessSurfaces(all, baseline, report)
  {
    forall q | q in Returned(all, baseline)
      ensures Capabilities.IsLivenessTerminal(q.terminal) <==>
              exists cap :: cap in q.terminals && Capabilities.IsLivenessTerminal(cap)
    {
      RowSurfaces(all, baseline, q);
    }
  }

  lemma LivenessListed(f: Finding)
    requires "liveness_loss" in Grants(f)
    ensures "liveness_loss" in TerminalsOf(f)
  {
    TerminalSpelling(f, "liveness_loss");
  }

  /** A confirmed finding that grants liveness loss behind such a label: with its requirements as
      the baseline a returned row lists the liveness terminal, and the sentence is missing. */
  lemma HiddenLiveness(f: Finding, report: Report)
    requires Confirmed(f) && '|' !in f.id && HidesLiveness(f)
    requires IsReport([f], Some(Needs(f)), report)
    ensures TerminalsOf(f) != {} && SoleRow(f) in Returned([f], Some(Needs(f)))
            && "liveness_loss" in SoleRow(f).terminals
    ensures Capabilities.IsLivenessTerminal("liveness_loss")
    ensures !report.liveness && !LivenessSurfaces([f], Some(Needs(f)), report)
  {
    var n := "liveness_loss";
    LivenessListed(f);
    TerminalSpelling(f, n);
    SoleReturned(f);
    SoleLists(f, n);
    LivenessFirst(f);
    TerminalSpelling(f, SoleRow(f).terminal);
    assert SoleRow(f) in Returned([f], Some(Needs(f)));
  }

  lemma SurfacesFails(all: seq<Finding>, some: seq<Finding>, base: Option<set<string>>, report: Report)
    requires Drawn(some, all) && IsReport(some, base, report) && !LivenessSurfaces(some, base, report)
    ensures !AlwaysSurfaces(all)
  {
  }

  lemma HiddenFails(all: seq<Finding>, f: Finding)
    requires WellKeyed(all) && f in all && Confirmed(f) && HidesLiveness(f)
    ensures !AlwaysSurfaces(all)
  {
    SoleDrawn(all, f);
    LivenessListed(f);
    SoleReported(f);
    HiddenLiveness(f, SoleReport(f));
    SurfacesFails(all, [f], Some(Needs(f)), SoleReport(f));
  }

  /** The liveness sentence is right for every store drawn from the findings, and every baseline,
      exactly when no confirmed finding grants liveness loss beside an asset label that sorts
      before it. */
  lemma LivenessSurfacesIff(all: seq<Finding>)
    requires WellKeyed(all)
    ensures AlwaysSurfaces(all) <==> forall f :: f in all && Confirmed(f) ==> !HidesLiveness(f)
  {
    if f :| f in all && Confirmed(f) && HidesLiveness(f) {
      HiddenFails(all, f);
    } else {
      forall some, base, report | Drawn(some, all) && IsReport(some, base, report)
        ensures LivenessSurfaces(some, base, report)
      {
        UnhiddenSurfaces(some, base, report);
      }
    }
  }

  // ----- Two inputs -------------------------------------------------------------------------------

  /** A confirmed finding without requirements. */
  function Granting(labels: seq<string>): Finding {
    Finding("F-1", "CONFIRMED", labels, [], Attacker(Absent, Absent, Absent, Absent, Absent, Absent), None, [], "")
  }

  /** A label that is its own normal form. */
  predicate Normal(tag: string) {
    Capabilities.NormalizeLabel(tag) == tag && !Capabilities.Blank(tag)
  }

  lemma PlainIsNormal(tag: string)
    requires tag != "" && forall i :: 0 <= i < |tag| ==> 'a' <= tag[i] <= 'z' || tag[i] == '_'
    ensures Normal(tag)
  {
    assert Capabilities.CanonicalChar(tag[0]);
    Capabilities.CanonicalFixed(tag);
  }

  lemma GrantsBoth(a: string, b: string)
    requires Normal(a) && Normal(b)
    ensures Grants(Granting([a, b])) == {a, b} && Needs(Granting([a, b])) == {}
  {
    Capabilities.LabelSetPush([], a);
    Capabilities.LabelSetPush([a], b);
    assert [] + [a] == [a] && [a] + [b] == [a, b];
  }

  lemma PairKeys(a: string, b: string)
    requires a != b && Leq(a, b)
    ensures SetKeys({a, b}) == [a, b]
  {
    assert SetOf([a, b]) == {a, b};
    SetKeysUnique([a, b], {a, b});
  }

  lemma PairTerminals(f: Finding, a: string, b: string)
    requires Grants(f) == {a, b} && Capabilities.IsTerminal(a) && Capabilities.IsTerminal(b)
    ensures TerminalsOf(f) == {a, b}
  {
  }

  /** A finding that grants two terminal labels: its row lists both, and no report has a shortest
      path for the second. */
  lemma PairMissing(f: Finding, a: string, b: string, report: Report)
    requires Confirmed(f) && '|' !in f.id && TerminalsOf(f) == {a, b} && a != b && Leq(a, b)
    requires IsReport([f], Some(Needs(f)), report)
    ensures exists q :: q in Found([f], Some(Needs(f))) && q.terminals == [a, b]
    ensures forall r :: r in report.shortest ==> r.terminal != b
  {
    PairKeys(a, b);
    HiddenLabel(f, b, report);
  }

  lemma AssetNames(a: string, b: string)
    requires a == "drain_treasury" && b == "steal_pending_rewards"
    ensures Normal(a) && Normal(b) && a != b && Leq(a, b)
    ensures Capabilities.IsTerminal(a) && Capabilities.IsTerminal(b)
  {
    AssetName(a, 3);
    AssetName(b, 4);
    FirstCharDecides(a, b);
  }

  lemma AssetName(tag: string, i: nat)
    requires 3 <= i < 5 && tag == Capabilities.ASSETS[i]
    ensures Normal(tag) && Capabilities.IsTerminal(tag)
  {
    PlainIsNormal(tag);
    assert tag in Capabilities.ASSETS;
    Capabilities.TerminalLabels(tag);
  }

  lemma GrantingPair(f: Finding, a: string, b: string)
    requires Normal(a) && Normal(b) && Capabilities.IsTerminal(a) && Capabilities.IsTerminal(b)
    requires f == Granting([a, b])
    ensures TerminalsOf(f) == {a, b} && Needs(f) == {} && Confirmed(f) && '|' !in f.id
  {
    GrantsBoth(a, b);
    PairTerminals(f, a, b);
  }

  /** One confirmed finding that grants "drain_treasury" and "steal_pending_rewards", and an empty
      baseline: the row lists both, and the report has no shortest path for the second. */
  lemma SecondTerminalMissing(f: Finding, a: string, b: string, base: set<string>, report: Report)
    requires a == "drain_treasury" && b == "steal_pending_rewards" && f == Granting([a, b]) && base == {}
    requires IsReport([f], Some(base), report)
    ensures exists q :: q in Found([f], Some(base)) && q.terminals == [a, b]
    ensures forall r :: r in report.shortest ==> r.terminal != b
  {
    AssetNames(a, b);
    GrantingPair(f, a, b);
    PairMissing(f, a, b, report);
  }

  lemma LivenessNames(a: string, b: string)
    requires a == "drain_treasury" && b == "liveness_loss"
    ensures Normal(a) && Normal(b) && Hidden({a, b})
  {
    PlainIsNormal(a);
    LivenessName(b);
  }

  lemma LivenessName(b: string)
    requires b == "liveness_loss"
    ensures Normal(b)
  {
    PlainIsNormal(b);
  }

  /** One that grants "drain_treasury" and "liveness_loss" is such a finding. */
  lemma LivenessHidden(f: Finding, a: string, b: string)
    requires a == "drain_treasury" && b == "liveness_loss" && f == Granting([a, b])
    ensures Confirmed(f) && HidesLiveness(f) && Needs(f) == {}
  {
    LivenessNames(a, b);
    GrantsBoth(a, b);
  }
}
