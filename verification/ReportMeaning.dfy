/** What the link list and the terminal report say of the finding records. */
module ReportMeaning {
  import opened Ordering
  import opened Findings
  import opened SearchMeaning
  import Capabilities
  import CapabilityLinks
  import TerminalSearch
  import TerminalRanking

  // ----- Links -----------------------------------------------------------------------------

  /** The finding is open and records the label on the given side. */
  predicate Records(f: Finding, side: CapabilityLinks.Side, cap: string) {
    Open(f) && if side.Granted? then Spells(f.granted, cap) else Spells(f.required, cap)
  }

  ghost predicate Recorded(all: seq<Finding>, id: string, side: CapabilityLinks.Side, cap: string) {
    exists f :: f in all && f.id == id && Records(f, side, cap)
  }

  lemma RecordsExact(f: Finding, side: CapabilityLinks.Side, cap: string)
    ensures Live(f) && cap in CapabilityLinks.Labels(side, f) <==> Records(f, side, cap)
  {
    OpenExact(f);
    SpellsExact(f, cap);
  }

  lemma CarriesMeans(all: seq<Finding>, side: CapabilityLinks.Side, id: string, cap: string)
    ensures CapabilityLinks.Carries(all, side, id, cap) <==> Recorded(all, id, side, cap)
  {
    forall f: Finding ensures Live(f) && cap in CapabilityLinks.Labels(side, f) <==> Records(f, side, cap) {
      RecordsExact(f, side, cap);
    }
  }

  /** The list holds exactly the links from an open finding that grants a label to another open
      finding that requires it. */
  lemma LinkMeans(all: seq<Finding>, links: seq<CapabilityLinks.Link>, l: CapabilityLinks.Link)
    requires CapabilityLinks.LinksExact(all, links)
    ensures l in links <==>
            && l.from != l.to
            && Recorded(all, l.from, CapabilityLinks.Granted, l.capability)
            && Recorded(all, l.to, CapabilityLinks.Required, l.capability)
  {
    CarriesMeans(all, CapabilityLinks.Granted, l.from, l.capability);
    CarriesMeans(all, CapabilityLinks.Required, l.to, l.capability);
  }

  /** The positions name the records of a label, in load order. */
  ghost predicate Locates(all: seq<Finding>, side: CapabilityLinks.Side, cap: string, positions: seq<nat>) {
    && (forall i, k :: 0 <= i < k < |positions| ==> positions[i] < positions[k])
    && forall n: nat :: n in positions <==> n < |all| && Records(all[n], side, cap)
  }

  lemma LocatesPush(all: seq<Finding>, f: Finding, side: CapabilityLinks.Side, cap: string, positions: seq<nat>)
    requires Locates(all, side, cap, positions)
    ensures Locates(all + [f], side, cap, if Records(f, side, cap) then positions + [|all|] else positions)
  {
    var more := all + [f];
    assert forall n: nat :: n < |all| ==> more[n] == all[n];
    assert forall k :: 0 <= k < |positions| ==> positions[k] in positions;
  }

  ghost predicate ListsIds(ids: seq<string>, all: seq<Finding>, positions: seq<nat>) {
    |ids| == |positions| && forall k :: 0 <= k < |ids| ==> positions[k] < |all| && ids[k] == all[positions[k]].id
  }

  /** An index entry lists the ids of the open findings that record its label, in load order. */
  lemma {:induction false} CarriersMean(all: seq<Finding>, side: CapabilityLinks.Side, cap: string)
    returns (positions: seq<nat>)
    ensures Locates(all, side, cap, positions)
    ensures ListsIds(CapabilityLinks.Carriers(all, side, cap), all, positions)
  {
    positions := [];
    if all != [] {
      var init, f := all[..|all| - 1], all[|all| - 1];
      SplitLast(all);
      var before := CarriersMean(init, side, cap);
      RecordsExact(f, side, cap);
      LocatesPush(init, f, side, cap, before);
      positions := if Records(f, side, cap) then before + [|init|] else before;
    }
  }

  // ----- The report ---------------------------------------------------------------------------

  lemma OfLengthPart(rows: seq<TerminalSearch.Row>, single: bool)
    ensures forall r :: r in TerminalRanking.OfLength(rows, single) <==> r in rows && (|r.path| == 1) == single
  {
    if rows != [] {
      SplitLast(rows);
      OfLengthPart(rows[..|rows| - 1], single);
    }
  }

  lemma NoLongerBefore(init: seq<TerminalSearch.Row>, last: TerminalSearch.Row)
    requires |last.path| == 1 && forall i :: 0 <= i < |init| ==> NoWorse(init[i], last)
    ensures forall r :: r in init ==> |r.path| <= 1
  {
    forall r | r in init ensures |r.path| <= 1 {
      var i :| 0 <= i < |init| && init[i] == r;
    }
  }

  lemma {:induction false} NoneLonger(rows: seq<TerminalSearch.Row>)
    requires forall r :: r in rows ==> |r.path| == 1
    ensures TerminalRanking.OfLength(rows, false) == []
  {
    if rows != [] { NoneLonger(rows[..|rows| - 1]); }
  }

  lemma {:induction false} LengthsSplit(rows: seq<TerminalSearch.Row>)
    requires forall r :: r in rows ==> |r.path| >= 1
    requires forall i, j :: 0 <= i < j < |rows| ==> NoWorse(rows[i], rows[j])
    ensures rows == TerminalRanking.OfLength(rows, true) + TerminalRanking.OfLength(rows, false)
  {
    if rows != [] {
      var init, last := rows[..|rows| - 1], rows[|rows| - 1];
      SplitLast(rows);
      LengthsSplit(init);
      var direct, chains := TerminalRanking.OfLength(init, true), TerminalRanking.OfLength(init, false);
      if |last.path| == 1 {
        NoLongerBefore(init, last);
        NoneLonger(init);
      } else {
        AppendAssociative(direct, chains, [last]);
      }
    }
  }

  /** The rows the report is made of. */
  ghost function Listed(all: seq<Finding>, baseline: Option<set<string>>): seq<TerminalSearch.Row> {
    TerminalSearch.TerminalChains(all, baseline, 5, 1, false)
  }

  lemma ListedRow(all: seq<Finding>, baseline: Option<set<string>>, r: TerminalSearch.Row) returns (fs: seq<Finding>)
    requires WellKeyed(all) && r in Listed(all, baseline)
    ensures var base := if baseline.Some? then baseline.value else {"call_any_entry_point"};
            Executable(all, false, base, fs) && |fs| <= 5 && Ends(fs[|fs| - 1]) && Tells(r, fs)
  {
    RowsReturned(all, baseline, 5, 1, false);
    var base := if baseline.Some? then baseline.value else {"call_any_entry_point"};
    fs := RowPath(all, false, base, 5, 1, r);
  }

  lemma ListedLabel(all: seq<Finding>, baseline: Option<set<string>>, r: TerminalSearch.Row)
    requires WellKeyed(all) && r in Listed(all, baseline)
    ensures |r.path| >= 1 && Capabilities.NormalizeLabel(r.terminal) == r.terminal
    ensures Capabilities.IsLivenessTerminal(r.terminal) <==> r.terminal == "liveness_loss"
  {
    var fs := ListedRow(all, baseline, r);
    var last := fs[|fs| - 1];
    assert EndsIn(last, r.terminal);
    SpellsExact(last, r.terminal);
    Capabilities.LabelIsNormal(last.granted, r.terminal);
    Capabilities.SixTerminals(r.terminal);
  }

  /** A row of the list that none with its label beats on length, or at its length on cost. */
  ghost predicate BestOf(rows: seq<TerminalSearch.Row>, r: TerminalSearch.Row) {
    r in rows && forall q :: q in rows && q.terminal == r.terminal ==> NoWorse(r, q)
  }

  /** No earlier row of the list has the label. */
  ghost predicate FirstLabelled(rows: seq<TerminalSearch.Row>, r: TerminalSearch.Row) {
    exists k :: 0 <= k < |rows| && rows[k] == r && forall j :: 0 <= j < k ==> rows[j].terminal != r.terminal
  }

  /** The report lists the rows returned, the single findings and then the longer paths; it is live
      exactly when some row's label is `liveness_loss`. */
  lemma ReportSplit(all: seq<Finding>, baseline: Option<set<string>>, report: TerminalRanking.Report)
    requires WellKeyed(all) && TerminalRanking.IsReport(all, baseline, report)
    ensures report.direct + report.chains == Listed(all, baseline)
    ensures (forall r :: r in report.direct ==> |r.path| == 1) && forall r :: r in report.chains ==> |r.path| > 1
    ensures report.liveness <==> exists r :: r in Listed(all, baseline) && r.terminal == "liveness_loss"
  {
    var rows := Listed(all, baseline);
    RowsReturned(all, baseline, 5, 1, false);
    forall r | r in rows
      ensures |r.path| >= 1 && (Capabilities.IsLivenessTerminal(r.terminal) <==> r.terminal == "liveness_loss")
    {
      ListedLabel(all, baseline, r);
    }
    LengthsSplit(rows);
    OfLengthPart(rows, true);
    OfLengthPart(rows, false);
  }

  lemma OptimalIsBest(rows: seq<TerminalSearch.Row>, r: TerminalSearch.Row)
    requires TerminalRanking.Optimal(rows, r)
    ensures BestOf(rows, r)
  {
  }

  /** The report singles out the first row listed for its label, which is a best one, */
  lemma ReportBest(all: seq<Finding>, baseline: Option<set<string>>, report: TerminalRanking.Report,
                   r: TerminalSearch.Row)
    requires TerminalRanking.IsReport(all, baseline, report) && r in report.shortest
    ensures BestOf(Listed(all, baseline), r) && FirstLabelled(Listed(all, baseline), r)
  {
    OptimalIsBest(Listed(all, baseline), r);
    assert TerminalRanking.FirstOf(Listed(all, baseline), r);
  }

  /** one for each label that some row carries first, */
  lemma ReportCovers(all: seq<Finding>, baseline: Option<set<string>>, report: TerminalRanking.Report,
                     q: TerminalSearch.Row)
    requires TerminalRanking.IsReport(all, baseline, report) && q in Listed(all, baseline)
    ensures exists r :: r in report.shortest && r.terminal == q.terminal
  {
  }

  /** in the order of the labels; */
  lemma ReportOrdered(all: seq<Finding>, baseline: Option<set<string>>, report: TerminalRanking.Report, i: nat, j: nat)
    requires TerminalRanking.IsReport(all, baseline, report) && i < j < |report.shortest|
    ensures var a, b := report.shortest[i].terminal, report.shortest[j].terminal; Leq(a, b) && a != b
  {
  }

  /** and it names the baseline the search started from. */
  lemma ReportBaseline(all: seq<Finding>, baseline: Option<set<string>>, report: TerminalRanking.Report)
    requires TerminalRanking.IsReport(all, baseline, report)
    ensures var base := if baseline.Some? then baseline.value else {"call_any_entry_point"};
            SetOf(report.baseline) == base && Increasing(report.baseline) && Distinct(report.baseline)
  {
    var base := if baseline.Some? then baseline.value else {"call_any_entry_point"};
    assert TerminalSearch.BaseOf(baseline) == base;
    SetKeysSorted(base);
  }
}
