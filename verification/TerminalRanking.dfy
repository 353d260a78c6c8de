/** The rows of the terminal search: what they say, how they rank, what the report keeps. */
module TerminalRanking {
  import opened Ordering
  import opened Findings
  import Capabilities
  import opened TerminalSearch
  import opened TerminalTheorems

  // ----- One row -------------------------------------------------------------------------

  ghost function TerminalCaps(granted: set<string>): set<string> {
    set cap | cap in granted && Capabilities.IsTerminal(cap)
  }

  lemma {:induction false} TerminalsInMembers(caps: seq<string>)
    ensures forall cap :: cap in TerminalsIn(caps) <==> cap in caps && Capabilities.IsTerminal(cap)
  {
    if caps != [] {
      TerminalsInMembers(caps[..|caps| - 1]);
      SplitLast(caps);
    }
  }

  lemma {:induction false} TerminalsInOrder(caps: seq<string>)
    requires Distinct(caps) && SortedBy(Leq, caps)
    ensures Distinct(TerminalsIn(caps)) && SortedBy(Leq, TerminalsIn(caps))
  {
    if caps != [] {
      var init := caps[..|caps| - 1];
      TerminalsInOrder(init);
      TerminalsInMembers(init);
      var rest := TerminalsIn(init);
      forall i | 0 <= i < |rest| ensures rest[i] != caps[|caps| - 1] && Leq(rest[i], caps[|caps| - 1]) {
        assert rest[i] in rest;
        var j :| 0 <= j < |init| && init[j] == rest[i];
        assert caps[j] == init[j];
      }
    }
  }

  /** A row lists exactly the terminal capabilities its last finding grants, in order. */
  lemma TerminalsExact(n: Node)
    ensures Terminals(n) == SetKeys(TerminalCaps(n.granted))
  {
    var caps := SetKeys(n.granted);
    SetKeysSorted(n.granted);
    IncreasingIsSorted(caps);
    TerminalsInMembers(caps);
    TerminalsInOrder(caps);
    var r := Terminals(n);
    forall cap ensures cap in caps <==> cap in n.granted { assert cap in SetOf(caps) <==> cap in caps; }
    assert SetOf(r) == TerminalCaps(n.granted);
    DistinctMultiset(r);
    IncreasingIsSorted(r);
    SetKeysUnique(r, TerminalCaps(n.granted));
  }

  /** What a terminal path's row says. */
  ghost function RowFor(nodes: seq<Node>, p: seq<string>): Row
    requires p != [] && EndsTerminal(nodes, p)
  {
    var last := NodeAt(nodes, p[|p| - 1]);
    var cost := CapitalOf(nodes, p);
    var terminals := SetKeys(TerminalCaps(last.granted));
    assert |terminals| > 0 by {
      var cap :| cap in last.granted && Capabilities.IsTerminal(cap);
      assert cap in TerminalCaps(last.granted);
    }
    Row(p, terminals[0], terminals, p[|p| - 1], cost.required, cost, cost.required - cost.recoverable)
  }

  datatype Field = Required | Recoverable | Irrecoverable | Atomic | Borrowable

  function Get(c: Capital, f: Field): real {
    match f
    case Required => c.required
    case Recoverable => c.recoverable
    case Irrecoverable => c.irrecoverable
    case Atomic => c.atomic
    case Borrowable => c.borrowable
  }

  ghost function Total(nodes: seq<Node>, p: seq<string>, f: Field): real {
    if p == [] then 0.0 else Get(NodeAt(nodes, p[0]).capital, f) + Total(nodes, p[1..], f)
  }

  lemma {:induction false} TotalPush(nodes: seq<Node>, p: seq<string>, id: string, f: Field)
    ensures Total(nodes, p + [id], f) == Total(nodes, p, f) + Get(NodeAt(nodes, id).capital, f)
  {
    if p == [] {
      assert (p + [id])[1..] == [];
    } else {
      TotalPush(nodes, p[1..], id, f);
      assert (p + [id])[1..] == p[1..] + [id];
    }
  }

  /** Each breakdown figure is the sum of that figure over the members of the path. */
  lemma {:induction false} BreakdownIsSum(nodes: seq<Node>, p: seq<string>, f: Field)
    requires p != []
    ensures Get(CapitalOf(nodes, p), f) == Total(nodes, p, f)
  {
    if |p| == 1 {
      assert p[1..] == [];
    } else {
      BreakdownIsSum(nodes, p[..|p| - 1], f);
      TotalPush(nodes, p[..|p| - 1], p[|p| - 1], f);
      SplitLast(p);
    }
  }

  lemma EmittedRow(nodes: seq<Node>, base: set<string>, f: Frame)
    requires Good(nodes, base, f)
    ensures Terminals(NodeAt(nodes, f.cur)) != [] <==> EndsTerminal(nodes, f.path)
    ensures EndsTerminal(nodes, f.path) ==> RowOf(nodes, f) == RowFor(nodes, f.path)
  {
    var last := NodeAt(nodes, f.cur);
    TerminalsExact(last);
    if EndsTerminal(nodes, f.path) {
      var cap :| cap in last.granted && Capabilities.IsTerminal(cap);
      assert cap in TerminalCaps(last.granted);
    } else {
      assert TerminalCaps(last.granted) == {};
    }
  }

  // ----- The enumeration ------------------------------------------------------------------

  /** What would be emitted with no `seen` map at all. */
  ghost function EmitAll(nodes: seq<Node>, minLength: int, frames: seq<Frame>): seq<Row> {
    if frames == [] then []
    else (if Emits(nodes, minLength, frames[0]) then [RowOf(nodes, frames[0])] else [])
         + EmitAll(nodes, minLength, frames[1..])
  }

  ghost predicate KeysApart(frames: seq<Frame>, seen: set<string>) {
    && (forall i, j :: 0 <= i < j < |frames| ==> Join(frames[i].path, '|') != Join(frames[j].path, '|'))
    && (forall i :: 0 <= i < |frames| ==> Join(frames[i].path, '|') !in seen)
  }

  lemma {:induction false} SeenUnused(nodes: seq<Node>, minLength: int, frames: seq<Frame>, seen: set<string>)
    requires KeysApart(frames, seen)
    ensures Emit(nodes, minLength, frames, seen) == EmitAll(nodes, minLength, frames)
    decreases |frames|
  {
    if frames != [] {
      var rest, seen' := frames[1..], if Emits(nodes, minLength, frames[0]) then seen + {Join(frames[0].path, '|')}
                         else seen;
      assert forall i :: 0 <= i < |rest| ==> rest[i] == frames[i + 1];
      SeenUnused(nodes, minLength, rest, seen');
    }
  }

  lemma PathKey(p: seq<string>, q: seq<string>)
    requires p != [] && q != [] && KeyIds(p) && KeyIds(q) && Join(p, '|') == Join(q, '|')
    ensures p == q
  {
    SplitJoin(p, '|');
    SplitJoin(q, '|');
  }

  lemma PathKeyIds(all: seq<Finding>, hyp: bool, base: set<string>, p: seq<string>)
    requires WellKeyed(all) && Reachable(NodesOf(all, hyp), base, p)
    ensures KeyIds(p)
  {
    NodesExact(all, hyp);
    forall id | id in p ensures '|' !in id {
      var i :| 0 <= i < |p| && p[i] == id;
      assert HasNode(NodesOf(all, hyp), p[i]);
    }
  }

  ghost function SearchFrames(all: seq<Finding>, hyp: bool, base: set<string>, maxDepth: int): seq<Frame> {
    Order(NodesOf(all, hyp), maxDepth, Starts(NodesOf(all, hyp), base, 0))
  }

  /** With unique ids the `seen` map never suppresses a row. */
  lemma NothingSuppressed(all: seq<Finding>, hyp: bool, base: set<string>, maxDepth: int, minLength: int)
    requires WellKeyed(all)
    ensures Enumerated(NodesOf(all, hyp), base, maxDepth, minLength) ==
            EmitAll(NodesOf(all, hyp), minLength, SearchFrames(all, hyp, base, maxDepth))
  {
    var nodes, frames := NodesOf(all, hyp), SearchFrames(all, hyp, base, maxDepth);
    NodesExact(all, hyp);
    OrderExact(nodes, base, maxDepth);
    OrderDistinct(nodes, base, maxDepth);
    forall i, j | 0 <= i < j < |frames| ensures Join(frames[i].path, '|') != Join(frames[j].path, '|') {
      assert frames[i] in frames && frames[j] in frames;
      PathKeyIds(all, hyp, base, frames[i].path);
      PathKeyIds(all, hyp, base, frames[j].path);
      if Join(frames[i].path, '|') == Join(frames[j].path, '|') {
        PathKey(frames[i].path, frames[j].path);
      }
    }
    SeenUnused(nodes, minLength, frames, {});
  }

  lemma {:induction false} EmitAllExact(nodes: seq<Node>, minLength: int, frames: seq<Frame>)
    ensures forall r :: r in EmitAll(nodes, minLength, frames) <==>
                        exists f :: f in frames && Emits(nodes, minLength, f) && r == RowOf(nodes, f)
    ensures DistinctPaths(frames) ==> RowsDistinct(EmitAll(nodes, minLength, frames))
  {
    if frames != [] {
      var rest := frames[1..];
      EmitAllExact(nodes, minLength, rest);
      assert frames == [frames[0]] + rest;
      var rows := EmitAll(nodes, minLength, rest);
      if DistinctPaths(frames) {
        assert forall i :: 0 <= i < |rest| ==> rest[i] == frames[i + 1];
        forall j | 0 <= j < |rows| ensures rows[j].path != frames[0].path {
          assert rows[j] in rows;
          var f :| f in rest && Emits(nodes, minLength, f) && rows[j] == RowOf(nodes, f);
          var i :| 0 <= i < |rest| && rest[i] == f;
        }
      }
    }
  }

  ghost predicate RowsDistinct(rows: seq<Row>) {
    forall i, j :: 0 <= i < j < |rows| ==> rows[i].path != rows[j].path
  }

  /** The rows of an uncapped search, as a property of a single row. */
  ghost predicate RowHolds(nodes: seq<Node>, base: set<string>, maxDepth: int, minLength: int, r: Row) {
    && TerminalPath(nodes, base, r.path)
    && minLength <= |r.path|
    && WithinDepth(maxDepth, r.path)
    && r == RowFor(nodes, r.path)
  }

  ghost predicate AllFrames(nodes: seq<Node>, base: set<string>, maxDepth: int, frames: seq<Frame>) {
    forall f :: f in frames <==> Good(nodes, base, f) && WithinDepth(maxDepth, f.path)
  }

  lemma RowsExact(nodes: seq<Node>, base: set<string>, maxDepth: int, minLength: int, frames: seq<Frame>, r: Row)
    requires AllFrames(nodes, base, maxDepth, frames)
    ensures r in EmitAll(nodes, minLength, frames) <==> RowHolds(nodes, base, maxDepth, minLength, r)
  {
    EmitAllExact(nodes, minLength, frames);
    if r in EmitAll(nodes, minLength, frames) {
      var f :| f in frames && Emits(nodes, minLength, f) && r == RowOf(nodes, f);
      EmittedRow(nodes, base, f);
    }
    if RowHolds(nodes, base, maxDepth, minLength, r) {
      var f := FrameOf(nodes, base, r.path);
      assert f in frames;
      EmittedRow(nodes, base, f);
    }
  }

  /** The search is exact: before sorting and capping it emits one row for every simple
      reachable terminal path of an admitted length, and no other row. */
  lemma EnumerationExact(all: seq<Finding>, hyp: bool, base: set<string>, maxDepth: int, minLength: int)
    requires WellKeyed(all)
    ensures var nodes := NodesOf(all, hyp); var rows := Enumerated(nodes, base, maxDepth, minLength);
            && RowsDistinct(rows)
            && forall r :: r in rows <==> RowHolds(nodes, base, maxDepth, minLength, r)
  {
    var nodes, frames := NodesOf(all, hyp), SearchFrames(all, hyp, base, maxDepth);
    NothingSuppressed(all, hyp, base, maxDepth, minLength);
    NodesExact(all, hyp);
    OrderExact(nodes, base, maxDepth);
    OrderDistinct(nodes, base, maxDepth);
    EmitAllExact(nodes, minLength, frames);
    assert AllFrames(nodes, base, maxDepth, frames);
    forall r ensures r in EmitAll(nodes, minLength, frames) <==> RowHolds(nodes, base, maxDepth, minLength, r) {
      RowsExact(nodes, base, maxDepth, minLength, frames, r);
    }
  }

  // ----- Ranking and the cap ----------------------------------------------------------------

  lemma RowLeqIsPreorder()
    ensures TotalPreorder(RowLeq)
  {
  }

  /** The rows returned are the best 500 of the enumeration, in order: each row returned is
      enumerated, ranks are non-decreasing, nothing is lost or repeated below the cap, and
      every dropped row ranks no better than every kept one. */
  lemma RankingKeepsBest(all: seq<Finding>, baseline: Option<set<string>>, maxDepth: int, minLength: int, hyp: bool)
    ensures var rows := Enumerated(NodesOf(all, hyp), BaseOf(baseline), maxDepth, minLength);
            var kept := TerminalChains(all, baseline, maxDepth, minLength, hyp);
            var dropped := Ranked(rows)[|kept|..];
            && SortedBy(RowLeq, kept)
            && |kept| == (if |rows| > MAX_PROPOSALS then MAX_PROPOSALS else |rows|)
            && multiset(kept) + multiset(dropped) == multiset(rows)
            && (forall a, b :: a in kept && b in dropped ==> RowLeq(a, b))
  {
    var rows := Enumerated(NodesOf(all, hyp), BaseOf(baseline), maxDepth, minLength);
    var kept := TerminalChains(all, baseline, maxDepth, minLength, hyp);
    RowLeqIsPreorder();
    SortCorrect(RowLeq, rows);
    var ranked := Ranked(rows);
    assert ranked == kept + ranked[|kept|..];
  }

  /** Every row returned is a reachable terminal path's row. */
  lemma KeptRowHolds(all: seq<Finding>, baseline: Option<set<string>>, maxDepth: int, minLength: int, hyp: bool, r: Row)
    requires WellKeyed(all) && r in TerminalChains(all, baseline, maxDepth, minLength, hyp)
    ensures RowHolds(NodesOf(all, hyp), BaseOf(baseline), maxDepth, minLength, r)
  {
    RankingKeepsBest(all, baseline, maxDepth, minLength, hyp);
    var rows := Enumerated(NodesOf(all, hyp), BaseOf(baseline), maxDepth, minLength);
    var kept := TerminalChains(all, baseline, maxDepth, minLength, hyp);
    assert r in multiset(kept);
    assert r in multiset(rows);
    EnumerationExact(all, hyp, BaseOf(baseline), maxDepth, minLength);
  }

  /** A row names a terminal capability that its last finding grants. */
  lemma RowNamesGrant(nodes: seq<Node>, base: set<string>, maxDepth: int, minLength: int, r: Row)
    requires RowHolds(nodes, base, maxDepth, minLength, r)
    ensures r.finding == r.path[|r.path| - 1] && HasNode(nodes, r.finding)
    ensures r.terminal in NodeAt(nodes, r.finding).granted && Capabilities.IsTerminal(r.terminal)
  {
    var last := NodeAt(nodes, r.path[|r.path| - 1]);
    var caps := TerminalCaps(last.granted);
    var cap :| cap in last.granted && Capabilities.IsTerminal(cap);
    assert cap in caps && |SetKeys(caps)| > 0;
    assert r.terminal == SetKeys(caps)[0];
    assert r.terminal in SetOf(SetKeys(caps));
  }

  /** Rows that tie on length and capital are returned in the order the search met them. */
  lemma RankingStable(rows: seq<Row>, r: Row)
    ensures TiedWith(RowLeq, r, Ranked(rows)) == TiedWith(RowLeq, r, rows)
  {
    RowLeqIsPreorder();
    SortStable(RowLeq, r, rows);
  }

  // ----- The report ---------------------------------------------------------------------------

  datatype Report = Report(baseline: seq<string>, direct: seq<Row>, chains: seq<Row>, shortest: seq<Row>,
                           liveness: bool)

  function OfLength(rows: seq<Row>, single: bool): seq<Row> {
    if rows == [] then []
    else
      var r := rows[|rows| - 1];
      OfLength(rows[..|rows| - 1], single) + if (|r.path| == 1) == single then [r] else []
  }

  /** A row that no row of the list with the same first label beats, on length or, at equal
      length, on capital. */
  ghost predicate Optimal(rows: seq<Row>, r: Row) {
    r in rows && forall q :: q in rows && q.terminal == r.terminal ==> RowLeq(r, q)
  }

  /** The first row of the list with its first label. */
  ghost predicate FirstOf(rows: seq<Row>, r: Row) {
    exists k :: 0 <= k < |rows| && rows[k] == r && forall j :: 0 <= j < k ==> rows[j].terminal != r.terminal
  }

  lemma FirstIsOptimal(rows: seq<Row>, r: Row)
    requires SortedBy(RowLeq, rows) && FirstOf(rows, r)
    ensures Optimal(rows, r)
  {
    var k :| 0 <= k < |rows| && rows[k] == r && forall j :: 0 <= j < k ==> rows[j].terminal != r.terminal;
    forall q | q in rows && q.terminal == r.terminal ensures RowLeq(r, q) {
      var j :| 0 <= j < |rows| && rows[j] == q;
      assert j >= k;
    }
  }

  lemma FirstOfPush(rows: seq<Row>, r: Row, p: Row)
    ensures FirstOf(rows, r) ==> FirstOf(rows + [p], r)
    ensures (forall q :: q in rows ==> q.terminal != p.terminal) ==> FirstOf(rows + [p], p)
  {
    var more := rows + [p];
    if FirstOf(rows, r) {
      var k :| 0 <= k < |rows| && rows[k] == r && forall j :: 0 <= j < k ==> rows[j].terminal != r.terminal;
      assert more[k] == r && forall j :: 0 <= j < k ==> more[j] == rows[j];
    }
    if forall q :: q in rows ==> q.terminal != p.terminal {
      assert more[|rows|] == p && forall j :: 0 <= j < |rows| ==> more[j] == rows[j] && rows[j] in rows;
    }
  }

  ghost predicate Covers(shortest: seq<Row>, rows: seq<Row>) {
    forall q :: q in rows ==> exists r :: r in shortest && r.terminal == q.terminal
  }

  ghost predicate OnePerTerminal(shortest: seq<Row>) {
    forall i, j :: 0 <= i < j < |shortest| ==>
      shortest[i].terminal != shortest[j].terminal && Leq(shortest[i].terminal, shortest[j].terminal)
  }

  method Partition(paths: seq<Row>) returns (direct: seq<Row>, chains: seq<Row>)
    ensures direct == OfLength(paths, true) && chains == OfLength(paths, false)
  {
    direct, chains := [], [];
    for i := 0 to |paths|
      invariant direct == OfLength(paths[..i], true) && chains == OfLength(paths[..i], false)
    {
      assert paths[..i + 1][..i] == paths[..i];
      if |paths[i].path| == 1 {
        direct := direct + [paths[i]];
      } else {
        chains := chains + [paths[i]];
      }
    }
    assert paths[..|paths|] == paths;
  }

  ghost predicate AllListed(paths: seq<Row>, best: map<string, Row>) {
    forall q :: q in paths ==> q.terminal in best
  }

  /** A row behind sorted ones changes the map only when its label is new. */
  lemma BestsPush(init: seq<Row>, best: map<string, Row>, p: Row)
    requires Bests(init, best) && AllListed(init, best) && forall q :: q in init ==> RowLeq(q, p)
    ensures p.terminal in best ==> |best[p.terminal].path| <= |p.path| && Bests(init + [p], best)
    ensures p.terminal !in best ==> Bests(init + [p], best[p.terminal := p])
  {
    forall k | k in best ensures FirstOf(init + [p], best[k]) { FirstOfPush(init, best[k], p); }
    FirstOfPush(init, p, p);
    if p.terminal in best {
      assert FirstOf(init, best[p.terminal]);
      assert best[p.terminal] in init;
    }
  }

  /** The `best` map: the shortest path seen for each first label. */
  method BestByTerminal(paths: seq<Row>) returns (order: seq<string>, best: map<string, Row>)
    requires SortedBy(RowLeq, paths)
    ensures Distinct(order) && SetOf(order) == best.Keys
    ensures Bests(paths, best)
    ensures AllListed(paths, best)
  {
    order, best := [], map[];
    for i := 0 to |paths|
      invariant Distinct(order) && SetOf(order) == best.Keys
      invariant Bests(paths[..i], best)
      invariant AllListed(paths[..i], best)
    {
      var p := paths[i];
      var k := p.terminal;
      assert paths[..i + 1] == paths[..i] + [p];
      assert forall q :: q in paths[..i] ==> RowLeq(q, p);
      BestsPush(paths[..i], best, p);
      if k !in best || |p.path| < |best[k].path| {
        if k !in best {
          SetOfPush(order, k);
          order := order + [k];
        }
        best := best[k := p];
      }
    }
    assert paths[..|paths|] == paths;
  }

  method AnyLiveness(paths: seq<Row>) returns (liveness: bool)
    ensures liveness <==> exists p :: p in paths && Capabilities.IsLivenessTerminal(p.terminal)
  {
    for i := 0 to |paths|
      invariant forall p :: p in paths[..i] ==> !Capabilities.IsLivenessTerminal(p.terminal)
    {
      if Capabilities.IsLivenessTerminal(paths[i].terminal) {
        return true;
      }
      assert paths[..i + 1] == paths[..i] + [paths[i]];
    }
    assert paths[..|paths|] == paths;
    return false;
  }

  method ListBest(ghost paths: seq<Row>, order0: seq<string>, best: map<string, Row>) returns (shortest: seq<Row>)
    requires Distinct(order0) && SetOf(order0) == best.Keys
    requires Bests(paths, best)
    requires AllListed(paths, best)
    ensures forall r :: r in shortest ==> FirstOf(paths, r)
    ensures Covers(shortest, paths)
    ensures OnePerTerminal(shortest)
  {
    var order := SortStrings(order0);
    SortedOrder(order0, order);
    shortest := ListRows(order, best);
    ListsFirst(paths, shortest, order, best);
    ListsCover(paths, shortest, order, best);
    ListsOrdered(shortest, order, best);
  }

  lemma SortedOrder(order0: seq<string>, order: seq<string>)
    requires Distinct(order0) && order == Ascending(order0)
    ensures Distinct(order) && SetOf(order) == SetOf(order0) && SortedBy(Leq, order)
  {
    DistinctByMultiset(order0, order);
    IncreasingIsSorted(order);
  }

  method ListRows(order: seq<string>, best: map<string, Row>) returns (shortest: seq<Row>)
    requires SetOf(order) == best.Keys
    ensures Lists(shortest, order, best)
  {
    shortest := [];
    for i := 0 to |order|
      invariant Lists(shortest, order[..i], best)
    {
      assert order[i] in SetOf(order);
      assert order[..i + 1] == order[..i] + [order[i]];
      shortest := shortest + [best[order[i]]];
    }
    assert order[..|order|] == order;
  }

  ghost predicate Lists(shortest: seq<Row>, order: seq<string>, best: map<string, Row>) {
    |shortest| == |order| && forall j :: 0 <= j < |order| ==> order[j] in best && shortest[j] == best[order[j]]
  }

  ghost predicate Bests(paths: seq<Row>, best: map<string, Row>) {
    forall k :: k in best ==> best[k].terminal == k && FirstOf(paths, best[k])
  }

  lemma ListsFirst(paths: seq<Row>, shortest: seq<Row>, order: seq<string>, best: map<string, Row>)
    requires Lists(shortest, order, best) && Bests(paths, best)
    ensures forall r :: r in shortest ==> FirstOf(paths, r)
  {
    forall r | r in shortest ensures FirstOf(paths, r) {
      var j :| 0 <= j < |shortest| && shortest[j] == r;
      assert order[j] in best;
    }
  }

  lemma ListsCover(paths: seq<Row>, shortest: seq<Row>, order: seq<string>, best: map<string, Row>)
    requires Lists(shortest, order, best) && SetOf(order) == best.Keys
    requires forall k :: k in best ==> best[k].terminal == k
    requires AllListed(paths, best)
    ensures Covers(shortest, paths)
  {
    forall q | q in paths ensures exists r :: r in shortest && r.terminal == q.terminal {
      assert q.terminal in SetOf(order);
      var j :| 0 <= j < |order| && order[j] == q.terminal;
      assert shortest[j] in shortest;
    }
  }

  lemma ListsOrdered(shortest: seq<Row>, order: seq<string>, best: map<string, Row>)
    requires Lists(shortest, order, best) && Distinct(order) && SortedBy(Leq, order)
    requires forall k :: k in best ==> best[k].terminal == k
    ensures OnePerTerminal(shortest)
  {
    forall i, j | 0 <= i < j < |shortest|
      ensures shortest[i].terminal != shortest[j].terminal && Leq(shortest[i].terminal, shortest[j].terminal)
    {
      assert order[i] in best && order[j] in best;
      assert shortest[i].terminal == order[i] && shortest[j].terminal == order[j];
    }
  }

  /** What the report holds: the rows split by length, the first and best row for every label that comes
      first in some row, in label order, and whether a liveness label comes first in one. */
  ghost predicate IsReport(all: seq<Finding>, baseline: Option<set<string>>, report: Report) {
    var kept := TerminalChains(all, baseline, 5, 1, false);
    && report.baseline == SetKeys(BaseOf(baseline))
    && report.direct == OfLength(kept, true)
    && report.chains == OfLength(kept, false)
    && (forall r :: r in report.shortest ==> FirstOf(kept, r) && Optimal(kept, r))
    && Covers(report.shortest, kept)
    && OnePerTerminal(report.shortest)
    && (report.liveness <==> exists p :: p in kept && Capabilities.IsLivenessTerminal(p.terminal))
  }

  /** `TerminalReport`, without the chain files it also lists. */
  method TerminalReport(all: seq<Finding>, baseline: Option<set<string>>) returns (report: Report)
    ensures IsReport(all, baseline, report)
  {
    var base := SortedKeys(BaseOf(baseline));
    var paths := FindTerminalChainsMode(all, baseline, 5, 1, false);
    RankingKeepsBest(all, baseline, 5, 1, false);
    var direct, chains := Partition(paths);
    var order, best := BestByTerminal(paths);
    var shortest := ListBest(paths, order, best);
    forall r | r in shortest ensures Optimal(paths, r) { FirstIsOptimal(paths, r); }
    var liveness := AnyLiveness(paths);
    report := Report(base, direct, chains, shortest, liveness);
  }

  /** Each shortest row is a shortest path, and among those a cheapest, over all the enumerated
      rows with its first label, the rows beyond the cap included. */
  lemma ShortestOverall(all: seq<Finding>, baseline: Option<set<string>>, maxDepth: int, minLength: int, hyp: bool,
                        r: Row)
    requires Optimal(TerminalChains(all, baseline, maxDepth, minLength, hyp), r)
    ensures Optimal(Enumerated(NodesOf(all, hyp), BaseOf(baseline), maxDepth, minLength), r)
  {
    var rows := Enumerated(NodesOf(all, hyp), BaseOf(baseline), maxDepth, minLength);
    var kept := TerminalChains(all, baseline, maxDepth, minLength, hyp);
    var dropped := Ranked(rows)[|kept|..];
    RankingKeepsBest(all, baseline, maxDepth, minLength, hyp);
    forall q ensures q in rows <==> q in kept || q in dropped {
      assert q in multiset(rows) <==> q in multiset(kept) + multiset(dropped);
    }
  }

  /** A first label of an enumerated row is missing from the report only when the cap cut off its
      best path: every row kept then ranks no worse. */
  lemma MissingOnlyByCap(all: seq<Finding>, baseline: Option<set<string>>, shortest: seq<Row>, q: Row)
    requires Covers(shortest, TerminalChains(all, baseline, 5, 1, false))
    requires q in Enumerated(NodesOf(all, false), BaseOf(baseline), 5, 1)
    ensures (exists r :: r in shortest && r.terminal == q.terminal)
            || (|TerminalChains(all, baseline, 5, 1, false)| == MAX_PROPOSALS
                && forall r :: r in TerminalChains(all, baseline, 5, 1, false) ==> RowLeq(r, q))
  {
    var rows := Enumerated(NodesOf(all, false), BaseOf(baseline), 5, 1);
    var kept := TerminalChains(all, baseline, 5, 1, false);
    var dropped := Ranked(rows)[|kept|..];
    RankingKeepsBest(all, baseline, 5, 1, false);
    assert q in multiset(rows);
    if q !in kept {
      assert q in multiset(dropped);
      assert q in dropped;
      RowLeqIsPreorder();
      SortCorrect(RowLeq, rows);
    }
  }
}
