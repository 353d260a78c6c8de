/** When an unproven chain derives a terminal for itself, and which one. */
module DerivedTheorems {
  import opened Ordering
  import opened Findings
  import opened Materialize
  import ChainTheorems
  import opened SearchMeaning
  import SearchOrder
  import TerminalSearch

  const ATTACKER: set<string> := {"call_any_entry_point"}

  /** The members can be executed in this order by the attacker, hypotheses included, and the last
      one grants a terminal capability. */
  ghost predicate Derives(all: seq<Finding>, ids: seq<string>, fs: seq<Finding>) {
    && Executable(all, true, ATTACKER, fs)
    && multiset(Ids(fs)) == multiset(ids) && |fs| <= 5
    && Ends(fs[|fs| - 1]) && fs[|fs| - 1].id != ""
  }

  /** The claim names the least terminal label of the last finding, that finding, and what the
      members require together. */
  ghost predicate Claims(claim: Claim, fs: seq<Finding>)
    requires fs != []
  {
    var last := fs[|fs| - 1];
    && EndsIn(last, claim.capability)
    && (forall cap :: EndsIn(last, cap) ==> Leq(claim.capability, cap))
    && claim.via == Some(last.id)
    && claim.total == Number(Sum(fs, Required))
    && claim.breakdown == NoBreakdown
  }

  /** Cheaper, or as dear and visited first. */
  ghost predicate Precedes(all: seq<Finding>, fs: seq<Finding>, gs: seq<Finding>) {
    || Sum(fs, Required) < Sum(gs, Required)
    || (Sum(fs, Required) == Sum(gs, Required)
        && (Ids(fs) == Ids(gs) || SearchOrder.VisitedBefore(Ids(all), Ids(fs), Ids(gs))))
  }

  ghost predicate Cheapest(all: seq<Finding>, ids: seq<string>, fs: seq<Finding>) {
    Derives(all, ids, fs) && forall gs :: Derives(all, ids, gs) ==> Precedes(all, fs, gs)
  }

  ghost predicate Matches(r: TerminalSearch.Row, want: set<string>) {
    |r.path| == |want| && SetOf(r.path) == want && r.finding != ""
  }

  ghost function ClaimOf(r: TerminalSearch.Row): Claim {
    Claim(r.terminal, Some(r.finding), Number(r.totalRequired), NoBreakdown)
  }

  lemma {:induction false} FirstMatch(rows: seq<TerminalSearch.Row>, want: set<string>) returns (k: nat)
    ensures k <= |rows| && forall j :: 0 <= j < k ==> !Matches(rows[j], want)
    ensures k < |rows| ==> Matches(rows[k], want)
    ensures FirstOver(rows, want) == if k < |rows| then Some(ClaimOf(rows[k])) else None
  {
    if rows == [] || Matches(rows[0], want) {
      k := 0;
    } else {
      var i := FirstMatch(rows[1..], want);
      k := i + 1;
      assert forall j :: 0 <= j < i ==> rows[1..][j] == rows[j + 1];
    }
  }

  ghost function Found5(all: seq<Finding>, n: nat): seq<TerminalSearch.Row> {
    TerminalSearch.Enumerated(TerminalSearch.NodesOf(all, true), ATTACKER, 5, n)
  }

  ghost function Kept5(all: seq<Finding>, n: nat): seq<TerminalSearch.Row> {
    TerminalSearch.TerminalChains(all, None, 5, n, true)
  }

  lemma KeepsAll(all: seq<Finding>, n: nat)
    requires |Found5(all, n)| <= 500
    ensures forall r :: r in Kept5(all, n) <==> r in Found5(all, n)
    ensures forall i, j :: 0 <= i < j < |Kept5(all, n)| ==> NoWorse(Kept5(all, n)[i], Kept5(all, n)[j])
  {
    RowsReturned(all, None, 5, n, true);
    var kept, rows := Kept5(all, n), Found5(all, n);
    forall r ensures r in kept <==> r in rows { assert r in multiset(kept) <==> r in multiset(rows); }
  }

  /** A row found over exactly the members tells of an order in which they derive a terminal. */
  lemma MatchDerives(all: seq<Finding>, ids: seq<string>, r: TerminalSearch.Row) returns (fs: seq<Finding>)
    requires WellKeyed(all) && Distinct(ids) && r in Found5(all, |ids|) && Matches(r, SetOf(ids))
    ensures Derives(all, ids, fs) && Tells(r, fs)
  {
    fs := RowPath(all, true, ATTACKER, 5, |ids|, r);
    ChainTheorems.SameMembers(r.path, ids);
  }

  /** And every such order has its row. */
  lemma DerivesMatch(all: seq<Finding>, ids: seq<string>, fs: seq<Finding>) returns (r: TerminalSearch.Row)
    requires WellKeyed(all) && Distinct(ids) && Derives(all, ids, fs)
    ensures r in Found5(all, |ids|) && Matches(r, SetOf(ids)) && Tells(r, fs)
  {
    assert |multiset(Ids(fs))| == |fs| && |multiset(ids)| == |ids|;
    r := PathRow(all, true, ATTACKER, 5, |ids|, fs);
    ChainTheorems.SameMembers(Ids(fs), ids);
    DistinctMultiset(ids);
  }

  lemma TellsClaim(r: TerminalSearch.Row, fs: seq<Finding>)
    requires fs != [] && Tells(r, fs)
    ensures Claims(ClaimOf(r), fs)
  {
    IncreasingIsSorted(r.terminals);
    LeqIsTotalOrder();
    forall cap | EndsIn(fs[|fs| - 1], cap) ensures Leq(r.terminal, cap) {
      var i :| 0 <= i < |r.terminals| && r.terminals[i] == cap;
    }
  }

  /** For distinct members, and below the cap, a terminal is derived exactly when some order of the
      members, at most five of them, derives one. The claim is then that of the cheapest order, and
      among equals of the one visited first. */
  lemma DerivedExact(all: seq<Finding>, ids: seq<string>)
    requires WellKeyed(all) && Distinct(ids) && |Found5(all, |ids|)| <= 500
    ensures DerivedClaim(all, ids).Some? <==> exists fs :: Derives(all, ids, fs)
    ensures DerivedClaim(all, ids).Some? ==>
              exists fs :: Cheapest(all, ids, fs) && Claims(DerivedClaim(all, ids).value, fs)
  {
    var kept, want := Kept5(all, |ids|), SetOf(ids);
    KeepsAll(all, |ids|);
    var k := FirstMatch(kept, want);
    if k < |kept| {
      assert kept[k] in kept;
      var fs := MatchDerives(all, ids, kept[k]);
      TellsClaim(kept[k], fs);
      forall gs | Derives(all, ids, gs) ensures Precedes(all, fs, gs) {
        LaterCostsMore(all, ids, k, fs, gs);
      }
      assert Cheapest(all, ids, fs);
    } else {
      forall fs ensures !Derives(all, ids, fs) {
        if Derives(all, ids, fs) {
          NoneUnmatched(all, ids, fs);
        }
      }
    }
  }

  lemma LaterCostsMore(all: seq<Finding>, ids: seq<string>, k: nat, fs: seq<Finding>, gs: seq<Finding>)
    requires WellKeyed(all) && Distinct(ids) && |Found5(all, |ids|)| <= 500
    requires k < |Kept5(all, |ids|)| && Matches(Kept5(all, |ids|)[k], SetOf(ids)) && fs != []
             && Tells(Kept5(all, |ids|)[k], fs)
    requires forall j :: 0 <= j < k ==> !Matches(Kept5(all, |ids|)[j], SetOf(ids))
    requires Derives(all, ids, gs)
    ensures Precedes(all, fs, gs)
  {
    var kept := Kept5(all, |ids|);
    var r := DerivesMatch(all, ids, gs);
    KeepsAll(all, |ids|);
    var j :| 0 <= j < |kept| && kept[j] == r;
    assert j >= k;
    SearchOrder.RowsRanked(all, None, 5, |ids|, true);
    if j > k { assert SearchOrder.Outranks(Ids(all), kept[k], kept[j]); }
  }

  lemma NoneUnmatched(all: seq<Finding>, ids: seq<string>, fs: seq<Finding>)
    requires WellKeyed(all) && Distinct(ids) && |Found5(all, |ids|)| <= 500 && Derives(all, ids, fs)
    ensures exists r :: r in Kept5(all, |ids|) && Matches(r, SetOf(ids))
  {
    var r := DerivesMatch(all, ids, fs);
    KeepsAll(all, |ids|);
  }

  /** A list that names a member twice derives nothing. */
  lemma RepeatsDeriveNothing(all: seq<Finding>, ids: seq<string>)
    requires WellKeyed(all) && !Distinct(ids)
    ensures DerivedClaim(all, ids) == None
  {
    var kept := Kept5(all, |ids|);
    var k := FirstMatch(kept, SetOf(ids));
    RowsReturned(all, None, 5, |ids|, true);
    if k < |kept| {
      assert kept[k] in kept;
      var fs := RowPath(all, true, ATTACKER, 5, |ids|, kept[k]);
      RepeatsShrink(ids);
    }
  }

  lemma {:induction false} RepeatsShrink(ids: seq<string>)
    ensures |SetOf(ids)| <= |ids| && (|SetOf(ids)| == |ids| ==> Distinct(ids))
  {
    if ids != [] {
      var init, last := ids[..|ids| - 1], ids[|ids| - 1];
      RepeatsShrink(init);
      SplitLast(ids);
      SetOfPush(init, last);
      if Distinct(init) && last in SetOf(init) {
        assert SetOf(ids) == SetOf(init);
      }
    }
  }
}
