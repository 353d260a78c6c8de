/** What the two searches return, said of the finding records alone. */
module SearchMeaning {
  import opened Ordering
  import opened Findings
  import Capabilities
  import ChainSearch
  import ChainTheorems
  import TerminalSearch
  import TerminalTheorems
  import TerminalRanking

  // ----- Labels and statuses as they are recorded ---------------------------------------------

  /** The value is more than blanks. */
  predicate Visible(v: string) {
    exists c :: c in v && c != ' ' && !(9 <= c as int <= 13) && !(28 <= c as int <= 31)
  }

  /** Some recorded value spells the label. */
  predicate Spells(values: seq<string>, cap: string) {
    exists v :: v in values && Visible(v) && Capabilities.NormalizeLabel(v) == cap
  }

  lemma VisibleIsNotBlank(v: string)
    ensures Visible(v) <==> !Capabilities.Blank(v)
  {
    if Visible(v) {
      var c :| c in v && c != ' ' && !(9 <= c as int <= 13) && !(28 <= c as int <= 31);
      var i :| 0 <= i < |v| && v[i] == c;
      assert !Capabilities.IsSpace(v[i]);
    } else {
      forall i | 0 <= i < |v| ensures Capabilities.IsSpace(v[i]) { assert v[i] in v; }
    }
  }

  lemma SpellsExact(f: Finding, cap: string)
    ensures cap in Grants(f) <==> Spells(f.granted, cap)
    ensures cap in Needs(f) <==> Spells(f.required, cap)
  {
    forall v ensures Visible(v) <==> !Capabilities.Blank(v) { VisibleIsNotBlank(v); }
  }

  predicate Open(f: Finding) {
    && f.status != "DISPROVED" && f.status != "OUT_OF_SCOPE" && f.status != "INFORMATIONAL"
    && f.status != "DUPLICATE" && f.status != "SUPERSEDED"
  }

  predicate Proven(f: Finding) {
    f.status == "CONFIRMED" || f.status == "CHAIN"
  }

  lemma OpenExact(f: Finding)
    ensures Live(f) <==> Open(f)
    ensures Confirmed(f) <==> Proven(f)
  {
  }

  function Ids(fs: seq<Finding>): (r: seq<string>)
    ensures |r| == |fs| && forall i :: 0 <= i < |r| ==> r[i] == fs[i].id
  {
    seq(|fs|, i requires 0 <= i < |fs| => fs[i].id)
  }

  // ----- Proposals ---------------------------------------------------------------------------

  /** Open findings, none twice, each later one requiring a label an earlier one grants. */
  ghost predicate Chain(all: seq<Finding>, fs: seq<Finding>) {
    && fs != []
    && Distinct(Ids(fs))
    && (forall i :: 0 <= i < |fs| ==> fs[i] in all && Open(fs[i]))
    && (forall i :: 1 <= i < |fs| ==> Feeds(fs, i))
  }

  ghost predicate Feeds(fs: seq<Finding>, i: nat)
    requires i < |fs|
  {
    exists j, cap :: 0 <= j < i && Spells(fs[j].granted, cap) && Spells(fs[i].required, cap)
  }

  lemma ChainNode(all: seq<Finding>, f: Finding)
    requires WellKeyed(all) && f in all && Live(f)
    ensures ChainTheorems.HasNode(ChainSearch.NodesOf(all), f.id)
    ensures ChainSearch.NodeAt(ChainSearch.NodesOf(all), f.id) == ChainSearch.Node(f.id, Grants(f), Needs(f))
  {
    ChainTheorems.NodesExact(all);
    var n := ChainSearch.Node(f.id, Grants(f), Needs(f));
    assert n in ChainSearch.NodesOf(all);
    ChainTheorems.NodeAtMember(ChainSearch.NodesOf(all), n);
  }

  lemma FeedsExact(all: seq<Finding>, a: Finding, b: Finding)
    requires WellKeyed(all) && a in all && b in all && Live(a) && Live(b)
    ensures ChainTheorems.Feeds(ChainSearch.NodesOf(all), a.id, b.id) <==>
            exists cap :: Spells(a.granted, cap) && Spells(b.required, cap)
  {
    ChainNode(all, a);
    ChainNode(all, b);
    var shared := Grants(a) * Needs(b);
    if shared != {} {
      var cap :| cap in shared;
      SpellsExact(a, cap);
      SpellsExact(b, cap);
    }
    if cap :| Spells(a.granted, cap) && Spells(b.required, cap) {
      SpellsExact(a, cap);
      SpellsExact(b, cap);
      assert cap in shared;
    }
  }

  lemma ReachedExact(all: seq<Finding>, fs: seq<Finding>, i: nat)
    requires WellKeyed(all) && i < |fs| && forall j :: 0 <= j < |fs| ==> fs[j] in all && Live(fs[j])
    ensures ChainTheorems.Reached(ChainSearch.NodesOf(all), Ids(fs), i) <==> Feeds(fs, i)
  {
    var nodes, p := ChainSearch.NodesOf(all), Ids(fs);
    forall j | 0 <= j < i
      ensures ChainTheorems.Feeds(nodes, p[j], p[i]) <==>
              exists cap :: Spells(fs[j].granted, cap) && Spells(fs[i].required, cap)
    {
      FeedsExact(all, fs[j], fs[i]);
    }
  }

  lemma ChainExact(all: seq<Finding>, fs: seq<Finding>)
    requires WellKeyed(all) && forall i :: 0 <= i < |fs| ==> fs[i] in all && Live(fs[i])
    ensures ChainTheorems.ChainPath(ChainSearch.NodesOf(all), Ids(fs)) <==> Chain(all, fs)
  {
    forall i | 0 <= i < |fs| ensures ChainTheorems.HasNode(ChainSearch.NodesOf(all), Ids(fs)[i]) && Open(fs[i]) {
      ChainNode(all, fs[i]);
      OpenExact(fs[i]);
    }
    forall i | 1 <= i < |fs| ensures ChainTheorems.Reached(ChainSearch.NodesOf(all), Ids(fs), i) <==> Feeds(fs, i) {
      ReachedExact(all, fs, i);
    }
  }

  lemma {:induction false} ChainFindings(all: seq<Finding>, p: seq<string>) returns (fs: seq<Finding>)
    requires forall i :: 0 <= i < |p| ==> ChainTheorems.HasNode(ChainSearch.NodesOf(all), p[i])
    ensures Ids(fs) == p && forall i :: 0 <= i < |fs| ==> fs[i] in all && Live(fs[i])
    decreases |p|
  {
    if p == [] {
      fs := [];
    } else {
      var init := ChainFindings(all, p[..|p| - 1]);
      ChainTheorems.NodesExact(all);
      var n :| n in ChainSearch.NodesOf(all) && n.id == p[|p| - 1];
      var f :| f in all && Live(f) && n == ChainSearch.Node(f.id, Grants(f), Needs(f));
      fs := init + [f];
      assert Ids(fs) == p[..|p| - 1] + [f.id];
    }
  }

  /** The labels some finding of the list grants. */
  ghost predicate Granted(fs: seq<Finding>, cap: string) {
    exists f :: f in fs && Spells(f.granted, cap)
  }

  lemma {:induction false} ChainGrants(all: seq<Finding>, fs: seq<Finding>, cap: string)
    requires WellKeyed(all) && forall i :: 0 <= i < |fs| ==> fs[i] in all && Live(fs[i])
    ensures cap in ChainTheorems.GrantsOf(ChainSearch.NodesOf(all), Ids(fs)) <==> Granted(fs, cap)
    decreases |fs|
  {
    if fs != [] {
      var init, f := fs[..|fs| - 1], fs[|fs| - 1];
      SplitLast(fs);
      ChainGrants(all, init, cap);
      assert Ids(fs)[..|fs| - 1] == Ids(init);
      ChainNode(all, f);
      SpellsExact(f, cap);
    }
  }

  /** A proposal: two lists of what it holds, in order and without repeats. */
  ghost predicate Proposes(q: ChainSearch.Proposal, fs: seq<Finding>) {
    && q.members == Ids(fs)
    && Increasing(q.capabilities) && Distinct(q.capabilities)
    && forall cap :: cap in q.capabilities <==> Granted(fs, cap)
  }

  /** Every proposal is a chain of open findings, of an admitted length up to five, with all that
      its members grant; there are at most five hundred. */
  lemma ProposedChain(all: seq<Finding>, minLength: int, q: ChainSearch.Proposal) returns (fs: seq<Finding>)
    requires WellKeyed(all) && q in ChainSearch.Proposals(ChainSearch.NodesOf(all), minLength)
    ensures Chain(all, fs) && minLength <= |fs| <= 5 && Proposes(q, fs)
    ensures |ChainSearch.Proposals(ChainSearch.NodesOf(all), minLength)| <= 500
  {
    ChainTheorems.ProposalsSound(all, minLength);
    fs := ChainFindings(all, q.members);
    ChainExact(all, fs);
    var held := ChainTheorems.GrantsOf(ChainSearch.NodesOf(all), Ids(fs));
    SetKeysSorted(held);
    forall cap ensures cap in q.capabilities <==> Granted(fs, cap) {
      ChainGrants(all, fs, cap);
      assert cap in q.capabilities <==> cap in SetOf(SetKeys(held));
    }
  }

  /** Below five hundred, every such chain has its members proposed. */
  lemma ChainProposed(all: seq<Finding>, minLength: int, fs: seq<Finding>) returns (q: ChainSearch.Proposal)
    requires WellKeyed(all) && Chain(all, fs) && minLength <= |fs| <= 5
    requires |ChainSearch.Proposals(ChainSearch.NodesOf(all), minLength)| < 500
    ensures q in ChainSearch.Proposals(ChainSearch.NodesOf(all), minLength) && SetOf(q.members) == SetOf(Ids(fs))
  {
    forall i | 0 <= i < |fs| ensures Live(fs[i]) { OpenExact(fs[i]); }
    ChainExact(all, fs);
    ChainTheorems.ProposalsComplete(all, minLength, Ids(fs));
    var r := ChainSearch.Proposals(ChainSearch.NodesOf(all), minLength);
    var i :| 0 <= i < |r| && SetOf(r[i].members) == SetOf(Ids(fs));
    q := r[i];
  }

  // ----- Case makes no difference ----------------------------------------------------------------

  /** The second text differs only in small letters for capitals. */
  predicate Recased(a: string, b: string) {
    && |a| == |b|
    && forall i :: 0 <= i < |a| ==> a[i] == b[i] || ('A' <= a[i] <= 'Z' && b[i] as int == a[i] as int + 32)
  }

  predicate RecasedAll(a: seq<string>, b: seq<string>) {
    |a| == |b| && forall i :: 0 <= i < |a| ==> Recased(a[i], b[i])
  }

  /** The same finding, but for the case of its labels. */
  predicate RecasedFinding(f: Finding, g: Finding) {
    && g == f.(granted := g.granted, required := g.required)
    && RecasedAll(f.granted, g.granted) && RecasedAll(f.required, g.required)
  }

  lemma RecasedLabel(a: string, b: string)
    requires Recased(a, b)
    ensures Capabilities.NormalizeLabel(a) == Capabilities.NormalizeLabel(b)
    ensures Capabilities.Blank(a) == Capabilities.Blank(b)
  {
    assert Capabilities.Respelled(a, b);
    Capabilities.RespelledAlike(a, b);
    forall i | 0 <= i < |a| ensures Capabilities.IsSpace(a[i]) == Capabilities.IsSpace(b[i]) {}
  }

  lemma RecasedLabels(a: seq<string>, b: seq<string>)
    requires RecasedAll(a, b)
    ensures Capabilities.LabelSet(a) == Capabilities.LabelSet(b)
  {
    forall i | 0 <= i < |a|
      ensures Capabilities.NormalizeLabel(a[i]) == Capabilities.NormalizeLabel(b[i])
      ensures Capabilities.Blank(a[i]) == Capabilities.Blank(b[i])
    {
      RecasedLabel(a[i], b[i]);
    }
    forall cap | cap in Capabilities.LabelSet(a) ensures cap in Capabilities.LabelSet(b) {
      var v :| v in a && !Capabilities.Blank(v) && cap == Capabilities.NormalizeLabel(v);
      var i :| 0 <= i < |a| && a[i] == v;
      assert b[i] in b;
    }
    forall cap | cap in Capabilities.LabelSet(b) ensures cap in Capabilities.LabelSet(a) {
      var v :| v in b && !Capabilities.Blank(v) && cap == Capabilities.NormalizeLabel(v);
      var i :| 0 <= i < |b| && b[i] == v;
      assert a[i] in a;
    }
  }

  /** Recasing labels changes neither search: the node tables, and so the proposals and the
      terminal paths, are the same. */
  lemma {:induction false} RecasingChangesNothing(all: seq<Finding>, others: seq<Finding>, hyp: bool)
    requires |all| == |others| && forall i :: 0 <= i < |all| ==> RecasedFinding(all[i], others[i])
    ensures ChainSearch.NodesOf(all) == ChainSearch.NodesOf(others)
    ensures TerminalSearch.NodesOf(all, hyp) == TerminalSearch.NodesOf(others, hyp)
    decreases |all|
  {
    if all != [] {
      RecasedLabels(all[0].granted, others[0].granted);
      RecasedLabels(all[0].required, others[0].required);
      forall i | 0 <= i < |all[1..]| ensures RecasedFinding(all[1..][i], others[1..][i]) {
        assert all[1..][i] == all[i + 1] && others[1..][i] == others[i + 1];
      }
      RecasingChangesNothing(all[1..], others[1..], hyp);
    }
  }

  // ----- Terminal paths --------------------------------------------------------------------------

  /** The findings the terminal search looks at. */
  predicate Searched(f: Finding, hyp: bool) {
    Proven(f) || (hyp && Open(f))
  }

  datatype Money = Required | Recoverable | Irrecoverable | Atomic | Borrowable

  /** What a recorded figure counts for. */
  function Usd(v: Figure): real {
    match v
    case Number(usd) => usd
    case _ => 0.0
  }

  /** A finding's own figure; the old flat field stands in for a required sum that is absent. */
  function Own(f: Finding, m: Money): real {
    match m
    case Required => (match f.attacker.required
                      case Absent => Usd(f.attacker.legacyRequired)
                      case _ => Usd(f.attacker.required))
    case Recoverable => Usd(f.attacker.recoverable)
    case Irrecoverable => Usd(f.attacker.irrecoverable)
    case Atomic => Usd(f.attacker.atomic)
    case Borrowable => Usd(f.attacker.borrowable)
  }

  function Sum(fs: seq<Finding>, m: Money): real {
    if fs == [] then 0.0 else Sum(fs[..|fs| - 1], m) + Own(fs[|fs| - 1], m)
  }

  /** Distinct findings the search looks at, each needing only the baseline and what earlier ones
      grant. */
  ghost predicate Executable(all: seq<Finding>, hyp: bool, base: set<string>, fs: seq<Finding>) {
    && fs != []
    && Distinct(Ids(fs))
    && (forall i :: 0 <= i < |fs| ==> fs[i] in all && Searched(fs[i], hyp))
    && (forall i, cap :: 0 <= i < |fs| && Spells(fs[i].required, cap) ==> cap in base || Granted(fs[..i], cap))
  }

  lemma TerminalNode(all: seq<Finding>, hyp: bool, f: Finding)
    requires WellKeyed(all) && f in all && Searched(f, hyp)
    ensures TerminalTheorems.HasNode(TerminalSearch.NodesOf(all, hyp), f.id)
    ensures TerminalSearch.NodeAt(TerminalSearch.NodesOf(all, hyp), f.id)
            == TerminalSearch.Node(f.id, Grants(f), Needs(f), TerminalSearch.CapitalNode(f.attacker))
  {
    OpenExact(f);
    TerminalTheorems.NodesExact(all, hyp);
    var n := TerminalSearch.Node(f.id, Grants(f), Needs(f), TerminalSearch.CapitalNode(f.attacker));
    assert n in TerminalSearch.NodesOf(all, hyp);
    TerminalTheorems.NodeAtMember(TerminalSearch.NodesOf(all, hyp), n);
  }

  ghost predicate AllSearched(all: seq<Finding>, hyp: bool, fs: seq<Finding>) {
    forall i :: 0 <= i < |fs| ==> fs[i] in all && Searched(fs[i], hyp)
  }

  lemma TerminalFinding(all: seq<Finding>, hyp: bool, id: string) returns (f: Finding)
    requires TerminalTheorems.HasNode(TerminalSearch.NodesOf(all, hyp), id)
    ensures f in all && Searched(f, hyp) && f.id == id
  {
    TerminalTheorems.NodesExact(all, hyp);
    var n :| n in TerminalSearch.NodesOf(all, hyp) && n.id == id;
    f :| f in all && TerminalSearch.Admitted(f, hyp)
         && n == TerminalSearch.Node(f.id, Grants(f), Needs(f), TerminalSearch.CapitalNode(f.attacker));
    OpenExact(f);
  }

  lemma {:induction false} TerminalFindings(all: seq<Finding>, hyp: bool, p: seq<string>) returns (fs: seq<Finding>)
    requires forall i :: 0 <= i < |p| ==> TerminalTheorems.HasNode(TerminalSearch.NodesOf(all, hyp), p[i])
    ensures Ids(fs) == p && AllSearched(all, hyp, fs)
    decreases |p|
  {
    if p == [] {
      fs := [];
    } else {
      var init := TerminalFindings(all, hyp, p[..|p| - 1]);
      var f := TerminalFinding(all, hyp, p[|p| - 1]);
      fs := init + [f];
      assert Ids(fs) == p[..|p| - 1] + [f.id];
    }
  }

  lemma {:induction false} TerminalGrants(all: seq<Finding>, hyp: bool, fs: seq<Finding>, cap: string)
    requires WellKeyed(all) && AllSearched(all, hyp, fs)
    ensures cap in TerminalTheorems.GrantsOf(TerminalSearch.NodesOf(all, hyp), Ids(fs)) <==> Granted(fs, cap)
    decreases |fs|
  {
    if fs != [] {
      var init, f := fs[..|fs| - 1], fs[|fs| - 1];
      SplitLast(fs);
      TerminalGrants(all, hyp, init, cap);
      assert Ids(fs)[..|fs| - 1] == Ids(init);
      TerminalNode(all, hyp, f);
      SpellsExact(f, cap);
    }
  }

  lemma NeedsMet(all: seq<Finding>, hyp: bool, base: set<string>, fs: seq<Finding>, i: nat)
    requires WellKeyed(all) && AllSearched(all, hyp, fs) && i < |fs|
    ensures var nodes := TerminalSearch.NodesOf(all, hyp);
            TerminalSearch.NodeAt(nodes, fs[i].id).required <= base
              + TerminalTheorems.GrantsOf(nodes, Ids(fs)[..i]) <==>
            forall cap :: Spells(fs[i].required, cap) ==> cap in base || Granted(fs[..i], cap)
  {
    TerminalNode(all, hyp, fs[i]);
    assert Ids(fs)[..i] == Ids(fs[..i]);
    forall cap
      ensures cap in Needs(fs[i]) <==> Spells(fs[i].required, cap)
      ensures cap in TerminalTheorems.GrantsOf(TerminalSearch.NodesOf(all, hyp), Ids(fs)[..i]) <==>
              Granted(fs[..i], cap)
    {
      SpellsExact(fs[i], cap);
      TerminalGrants(all, hyp, fs[..i], cap);
    }
  }

  lemma ExecutableExact(all: seq<Finding>, hyp: bool, base: set<string>, fs: seq<Finding>)
    requires WellKeyed(all) && AllSearched(all, hyp, fs)
    ensures TerminalTheorems.Reachable(TerminalSearch.NodesOf(all, hyp), base, Ids(fs)) <==>
            Executable(all, hyp, base, fs)
  {
    forall i | 0 <= i < |fs|
      ensures TerminalTheorems.HasNode(TerminalSearch.NodesOf(all, hyp), Ids(fs)[i])
    {
      TerminalNode(all, hyp, fs[i]);
    }
    forall i | 0 <= i < |fs|
      ensures TerminalSearch.NodeAt(TerminalSearch.NodesOf(all, hyp), Ids(fs)[i]).required
              <= base + TerminalTheorems.GrantsOf(TerminalSearch.NodesOf(all, hyp), Ids(fs)[..i]) <==>
              forall cap :: Spells(fs[i].required, cap) ==> cap in base || Granted(fs[..i], cap)
    {
      NeedsMet(all, hyp, base, fs, i);
    }
  }

  lemma OwnCapital(f: Finding)
    ensures var c := TerminalSearch.CapitalNode(f.attacker);
            && c.required == Own(f, Required) && c.recoverable == Own(f, Recoverable)
            && c.irrecoverable == Own(f, Irrecoverable) && c.atomic == Own(f, Atomic)
            && c.borrowable == Own(f, Borrowable)
  {
  }

  lemma {:induction false} PathCapital(all: seq<Finding>, hyp: bool, fs: seq<Finding>)
    requires WellKeyed(all) && AllSearched(all, hyp, fs) && fs != []
    ensures var c := TerminalTheorems.CapitalOf(TerminalSearch.NodesOf(all, hyp), Ids(fs));
            && c.required == Sum(fs, Required) && c.recoverable == Sum(fs, Recoverable)
            && c.irrecoverable == Sum(fs, Irrecoverable) && c.atomic == Sum(fs, Atomic)
            && c.borrowable == Sum(fs, Borrowable)
    decreases |fs|
  {
    var init, f := fs[..|fs| - 1], fs[|fs| - 1];
    TerminalNode(all, hyp, f);
    OwnCapital(f);
    if |fs| > 1 {
      PathCapital(all, hyp, init);
      assert Ids(fs)[..|fs| - 1] == Ids(init);
    } else {
      assert init == [];
    }
  }

  /** A terminal label among those a finding grants, by its spelling. */
  predicate EndsIn(f: Finding, cap: string) {
    && Spells(f.granted, cap)
    && (cap == "liveness_loss" || cap == "withdraw_unbacked_assets" || cap == "extract_protocol_liquidity"
        || cap == "retain_extracted_funds" || cap == "drain_treasury" || cap == "steal_pending_rewards")
  }

  ghost predicate Ends(f: Finding) {
    exists cap :: EndsIn(f, cap)
  }

  /** What a row says of the findings on its path. */
  ghost predicate Tells(r: TerminalSearch.Row, fs: seq<Finding>)
    requires fs != []
  {
    var last := fs[|fs| - 1];
    && r.path == Ids(fs) && r.finding == last.id
    && Distinct(r.terminals) && Increasing(r.terminals)
    && (forall cap :: cap in r.terminals <==> EndsIn(last, cap))
    && r.terminals != [] && r.terminal == r.terminals[0]
    && r.totalRequired == Sum(fs, Required)
    && r.breakdown.required == Sum(fs, Required) && r.breakdown.recoverable == Sum(fs, Recoverable)
    && r.breakdown.irrecoverable == Sum(fs, Irrecoverable) && r.breakdown.atomic == Sum(fs, Atomic)
    && r.breakdown.borrowable == Sum(fs, Borrowable)
    && r.netAtRisk == Sum(fs, Required) - Sum(fs, Recoverable)
  }

  lemma EndsInExact(f: Finding, cap: string)
    ensures cap in TerminalRanking.TerminalCaps(Grants(f)) <==> EndsIn(f, cap)
  {
    SpellsExact(f, cap);
    if cap in Grants(f) {
      Capabilities.LabelIsNormal(f.granted, cap);
      Capabilities.SixTerminals(cap);
    }
  }

  lemma RowTells(all: seq<Finding>, hyp: bool, fs: seq<Finding>)
    requires WellKeyed(all) && AllSearched(all, hyp, fs) && fs != []
    ensures TerminalTheorems.EndsTerminal(TerminalSearch.NodesOf(all, hyp), Ids(fs)) <==> Ends(fs[|fs| - 1])
    ensures TerminalTheorems.EndsTerminal(TerminalSearch.NodesOf(all, hyp), Ids(fs)) ==>
              Tells(TerminalRanking.RowFor(TerminalSearch.NodesOf(all, hyp), Ids(fs)), fs)
  {
    var nodes, last := TerminalSearch.NodesOf(all, hyp), fs[|fs| - 1];
    TerminalNode(all, hyp, last);
    PathCapital(all, hyp, fs);
    var caps := TerminalRanking.TerminalCaps(Grants(last));
    SetKeysSorted(caps);
    forall cap ensures cap in SetKeys(caps) <==> EndsIn(last, cap) {
      EndsInExact(last, cap);
      assert cap in SetKeys(caps) <==> cap in SetOf(SetKeys(caps));
    }
    forall cap ensures cap in caps <==> cap in Grants(last) && Capabilities.IsTerminal(cap) {}
    forall cap | EndsIn(last, cap) ensures cap in caps { EndsInExact(last, cap); }
  }

  /** The path lengths the search looks at: a single finding always, longer ones up to the bound. */
  predicate Admits(minLength: int, maxDepth: int, n: nat) {
    minLength <= n && (n <= 1 || n <= maxDepth)
  }

  /** Every row found tells of an executable path that ends in a terminal. */
  lemma RowPath(all: seq<Finding>, hyp: bool, base: set<string>, maxDepth: int, minLength: int, r: TerminalSearch.Row)
    returns (fs: seq<Finding>)
    requires WellKeyed(all)
    requires r in TerminalSearch.Enumerated(TerminalSearch.NodesOf(all, hyp), base, maxDepth, minLength)
    ensures Executable(all, hyp, base, fs) && Ends(fs[|fs| - 1]) && Admits(minLength, maxDepth, |fs|) && Tells(r, fs)
  {
    TerminalRanking.EnumerationExact(all, hyp, base, maxDepth, minLength);
    fs := TerminalFindings(all, hyp, r.path);
    ExecutableExact(all, hyp, base, fs);
    RowTells(all, hyp, fs);
  }

  /** And every such path has its row, once. */
  lemma PathRow(all: seq<Finding>, hyp: bool, base: set<string>, maxDepth: int, minLength: int, fs: seq<Finding>)
    returns (r: TerminalSearch.Row)
    requires WellKeyed(all) && Executable(all, hyp, base, fs) && Ends(fs[|fs| - 1]) && Admits(minLength, maxDepth, |fs|)
    ensures r in TerminalSearch.Enumerated(TerminalSearch.NodesOf(all, hyp), base, maxDepth, minLength) && Tells(r, fs)
  {
    ExecutableExact(all, hyp, base, fs);
    RowTells(all, hyp, fs);
    r := TerminalRanking.RowFor(TerminalSearch.NodesOf(all, hyp), Ids(fs));
    TerminalRanking.EnumerationExact(all, hyp, base, maxDepth, minLength);
  }

  /** Shorter, or as long and at most as dear. */
  predicate NoWorse(a: TerminalSearch.Row, b: TerminalSearch.Row) {
    |a.path| < |b.path| || (|a.path| == |b.path| && a.totalRequired <= b.totalRequired)
  }

  /** The rows returned are rows found, in order of length and then cost, at most five hundred; one
      found that is not returned is no better than any of five hundred that are. */
  ghost predicate Keeps(rows: seq<TerminalSearch.Row>, kept: seq<TerminalSearch.Row>) {
    && |kept| <= 500
    && (forall i, j :: 0 <= i < j < |kept| ==> NoWorse(kept[i], kept[j]))
    && (forall r :: r in kept ==> r in rows)
    && (forall q :: q in rows && q !in kept ==> |kept| == 500 && forall r :: r in kept ==> NoWorse(r, q))
    && (|rows| <= 500 ==> multiset(kept) == multiset(rows))
  }

  lemma KeepsBest(rows: seq<TerminalSearch.Row>, kept: seq<TerminalSearch.Row>, dropped: seq<TerminalSearch.Row>)
    requires SortedBy(TerminalSearch.RowLeq, kept)
    requires |kept| == if |rows| > TerminalSearch.MAX_PROPOSALS then TerminalSearch.MAX_PROPOSALS else |rows|
    requires multiset(kept) + multiset(dropped) == multiset(rows)
    requires forall a, b :: a in kept && b in dropped ==> TerminalSearch.RowLeq(a, b)
    ensures Keeps(rows, kept)
  {
    SplitContents(rows, kept, dropped);
    if |rows| <= 500 {
      SameSize(rows, kept, dropped);
    }
    if |kept| < 500 {
      SameSize(rows, kept, dropped);
    }
  }

  lemma RowsReturned(all: seq<Finding>, baseline: Option<set<string>>, maxDepth: int, minLength: int, hyp: bool)
    ensures var base := if baseline.Some? then baseline.value else {"call_any_entry_point"};
            Keeps(TerminalSearch.Enumerated(TerminalSearch.NodesOf(all, hyp), base, maxDepth, minLength),
                  TerminalSearch.TerminalChains(all, baseline, maxDepth, minLength, hyp))
  {
    var base := if baseline.Some? then baseline.value else {"call_any_entry_point"};
    assert TerminalSearch.BaseOf(baseline) == base;
    var rows := TerminalSearch.Enumerated(TerminalSearch.NodesOf(all, hyp), base, maxDepth, minLength);
    var kept := TerminalSearch.TerminalChains(all, baseline, maxDepth, minLength, hyp);
    TerminalRanking.RankingKeepsBest(all, baseline, maxDepth, minLength, hyp);
    KeepsBest(rows, kept, TerminalSearch.Ranked(rows)[|kept|..]);
  }

  lemma SplitContents<T>(rows: seq<T>, kept: seq<T>, dropped: seq<T>)
    requires multiset(kept) + multiset(dropped) == multiset(rows)
    ensures forall r :: r in rows <==> r in kept || r in dropped
  {
    forall r ensures r in rows <==> r in kept || r in dropped {
      assert r in multiset(rows) <==> r in multiset(kept) || r in multiset(dropped);
    }
  }

  lemma SameSize<T>(rows: seq<T>, kept: seq<T>, dropped: seq<T>)
    requires multiset(kept) + multiset(dropped) == multiset(rows) && |kept| == |rows|
    ensures multiset(kept) == multiset(rows)
  {
    assert |multiset(kept)| + |multiset(dropped)| == |multiset(rows)|;
    assert dropped == [];
  }
}
