/** The specification scorecard: two exclusion laws, then a join of result lines to cases and
    a roll-up per bug class. */
module Scorecard {
  import opened Ordering

  /** One parsed tool line. `keys` is its key set; a text field is "" when it is absent. */
  datatype Line = Line(keys: set<string>, verdict: string, reason: string, rule: string, contract: string, stem: string)

  /** One evaluation case; `stems` are the stems of the files it names. */
  datatype Case = Case(id: string, program: string, recordId: string, stems: seq<string>, outcome: string,
                       bugClass: string)

  /** The join table: tie key to case id. */
  type ClassMap = map<string, string>

  const VIOLATED := "VIOLATED"
  const PROVEN := "PROVEN"
  const UNKNOWN := "UNKNOWN"

  predicate RefusalReason(reason: string) {
    reason in {
      "unsupported-feature", "unsupported-opcode", "unsupported-storage-layout", "rejected-feature",
      "unrecognized-dispatcher", "external-call-abstraction", "summary-unverified",
      "multi-call-ambiguous-call-site", "multi-call-inner-arg-unsupported", "multi-call-stmt-between-calls",
      "invariant-uninitialized", "invariant-unchecked-functions", "tool-error", "unresolved-phi-source",
      "unresolved-branch-cond", "modelling-inconsistency", "solver-disagreement"}
  }

  predicate CleanOutcome(outcome: string) {
    outcome in {"confirmed-not-exploitable", "not-exploitable", "clean", "benign"}
  }

  // ----- The shape law ---------------------------------------------------------------------

  function ReportKeys(): set<string> {
    {"schema_version", "tool_version", "spec_version", "solc_version", "evm_version", "optimizer_enabled",
     "yul_artifact", "contract", "rule", "verdict", "confidence", "reason", "details", "assumptions", "bounds",
     "params", "env", "initial_storage", "calls", "final_storage", "failed_assertion", "warnings", "ghosts"}
  }

  function AbortKeys(): set<string> {
    {"verdict", "reason", "details"}
  }

  function UndecidedKeys(): set<string> {
    {"verdict", "rule", "reason", "details"}
  }

  datatype Shape = Report | Abort | Undecided

  /** `shape_of`. */
  function ShapeOf(line: Line): Option<Shape> {
    if line.keys == AbortKeys() then (if line.verdict == UNKNOWN then Some(Abort) else None)
    else if line.keys == UndecidedKeys() then (if line.verdict == UNKNOWN then Some(Undecided) else None)
    else if ReportKeys() <= line.keys && line.keys - ReportKeys() <= {"invariant"} then Some(Report)
    else None
  }

  predicate Shaped(line: Line) {
    ShapeOf(line).Some?
  }

  /** The lines of a list that are in a class, in order. */
  ghost function Keep(lines: seq<Line>, good: iset<Line>): seq<Line> {
    if lines == [] then []
    else
      var last := lines[|lines| - 1];
      Keep(lines[..|lines| - 1], good) + if last in good then [last] else []
  }

  ghost function ShapedLines(): iset<Line> {
    iset l | Shaped(l)
  }

  ghost function KeepShaped(lines: seq<Line>): seq<Line> {
    Keep(lines, ShapedLines())
  }

  method ScreenLines(lines: seq<Line>) returns (kept: seq<Line>, excluded: nat)
    ensures kept == KeepShaped(lines) && excluded == |lines| - |kept|
  {
    kept, excluded := [], 0;
    for i := 0 to |lines|
      invariant kept == KeepShaped(lines[..i]) && excluded == i - |kept|
    {
      assert lines[..i + 1][..i] == lines[..i];
      if !Shaped(lines[i]) {
        excluded := excluded + 1;
        continue;
      }
      kept := kept + [lines[i]];
    }
    assert lines[..|lines|] == lines;
  }

  // ----- The join ladder ----------------------------------------------------------------------

  /** The single key a line offers, "" for none. */
  function TieKey(line: Line): string {
    if line.rule != "" then line.rule else if line.contract != "" then line.contract else line.stem
  }

  /** The strings a line may use to tie to the case. */
  function CaseKeys(c: Case, table: ClassMap): set<string> {
    ({c.id, c.program, c.recordId} + SetOf(c.stems) + set k | k in table && table[k] == c.id) - {""}
  }

  predicate Ties(line: Line, c: Case, table: ClassMap) {
    TieKey(line) in CaseKeys(c, table)
  }

  /** The cases a key ties. */
  ghost function IdsOf(cases: seq<Case>, table: ClassMap, key: string): set<string> {
    set c | c in cases && key in CaseKeys(c, table) :: c.id
  }

  function Lookup(index: map<string, set<string>>, key: string): set<string> {
    if key in index then index[key] else {}
  }

  ghost predicate Indexes(index: map<string, set<string>>, cases: seq<Case>, table: ClassMap) {
    forall key :: Lookup(index, key) == IdsOf(cases, table, key)
  }

  lemma IdsPush(cases: seq<Case>, c: Case, table: ClassMap, key: string)
    ensures IdsOf(cases + [c], table, key) == IdsOf(cases, table, key)
            + if key in CaseKeys(c, table) then {c.id} else {}
  {
    assert forall d :: d in cases + [c] <==> d in cases || d == c;
  }

  /** `case_index`: the join read from the cases' side. */
  method CaseIndex(cases: seq<Case>, table: ClassMap) returns (index: map<string, set<string>>)
    ensures Indexes(index, cases, table)
  {
    index := map[];
    for i := 0 to |cases|
      invariant Indexes(index, cases[..i], table)
    {
      assert cases[..i + 1] == cases[..i] + [cases[i]];
      forall key { IdsPush(cases[..i], cases[i], table, key); }
      index := IndexCase(index, cases[i].id, CaseKeys(cases[i], table));
    }
    assert cases[..|cases|] == cases;
  }

  method IndexCase(before: map<string, set<string>>, id: string, keys: set<string>)
    returns (after: map<string, set<string>>)
    ensures forall key :: Lookup(after, key) == Lookup(before, key) + if key in keys then {id} else {}
  {
    after := before;
    var todo := keys;
    while todo != {}
      invariant todo <= keys
      invariant forall key :: Lookup(after, key) == Lookup(before, key) + if key in keys - todo then {id} else {}
      decreases todo
    {
      var key :| key in todo;
      todo := todo - {key};
      after := after[key := Lookup(after, key) + {id}];
    }
  }

  // ----- The tie-collision law -----------------------------------------------------------------

  /** The line's rule and its results file tie disjoint cases. */
  ghost predicate Collides(line: Line, cases: seq<Case>, table: ClassMap) {
    && line.rule != "" && line.stem != ""
    && IdsOf(cases, table, line.rule) != {} && IdsOf(cases, table, line.stem) != {}
    && IdsOf(cases, table, line.rule) * IdsOf(cases, table, line.stem) == {}
  }

  ghost function AgreeingLines(cases: seq<Case>, table: ClassMap): iset<Line> {
    iset l | !Collides(l, cases, table)
  }

  ghost function KeepAgreeing(lines: seq<Line>, cases: seq<Case>, table: ClassMap): seq<Line> {
    Keep(lines, AgreeingLines(cases, table))
  }

  method TieCollision(line: Line, index: map<string, set<string>>, ghost cases: seq<Case>, ghost table: ClassMap)
    returns (hit: bool)
    requires Indexes(index, cases, table)
    ensures hit <==> Collides(line, cases, table)
  {
    if line.rule == "" || line.stem == "" {
      return false;
    }
    var ruleCases, stemCases := Lookup(index, line.rule), Lookup(index, line.stem);
    if ruleCases == {} || stemCases == {} || ruleCases * stemCases != {} {
      return false;
    }
    return true;
  }

  method ScreenTieCollisions(lines: seq<Line>, index: map<string, set<string>>, ghost cases: seq<Case>,
                             ghost table: ClassMap)
    returns (kept: seq<Line>, problems: nat)
    requires Indexes(index, cases, table)
    ensures kept == KeepAgreeing(lines, cases, table) && problems == |lines| - |kept|
  {
    kept, problems := [], 0;
    for i := 0 to |lines|
      invariant kept == KeepAgreeing(lines[..i], cases, table) && problems == i - |kept|
    {
      assert lines[..i + 1][..i] == lines[..i];
      var hit := TieCollision(lines[i], index, cases, table);
      if !hit {
        kept := kept + [lines[i]];
        continue;
      }
      problems := problems + 1;
    }
    assert lines[..|lines|] == lines;
  }

  // ----- Scoring one case ------------------------------------------------------------------------

  function Class(c: Case): string {
    if c.bugClass == "" then "<unknown>" else c.bugClass
  }

  predicate Refuses(line: Line) {
    line.verdict == UNKNOWN && RefusalReason(line.reason)
  }

  ghost function TyingLines(c: Case, table: ClassMap): iset<Line> {
    iset l | Ties(l, c, table)
  }

  ghost function Tied(c: Case, lines: seq<Line>, table: ClassMap): seq<Line> {
    Keep(lines, TyingLines(c, table))
  }

  predicate Shows(tied: seq<Line>, verdict: string) {
    exists l :: l in tied && l.verdict == verdict
  }

  predicate AllShow(tied: seq<Line>, verdict: string) {
    forall l :: l in tied ==> l.verdict == verdict
  }

  /** The reasons of the refusing lines, with their counts. */
  ghost function Reasons(tied: seq<Line>): multiset<string> {
    if tied == [] then multiset{}
    else
      var last := tied[|tied| - 1];
      Reasons(tied[..|tied| - 1]) + if Refuses(last) then multiset{last.reason} else multiset{}
  }

  datatype Tally = Tally(bugClass: string, detected: bool, provenSilence: bool, cleanAgreed: bool, refused: bool,
                         reasons: multiset<string>)

  /** The verdict on one case from the lines tied to it. */
  ghost function TallyOf(c: Case, tied: seq<Line>): Tally {
    var silent := tied != [] && AllShow(tied, PROVEN);
    Tally(Class(c), Shows(tied, VIOLATED), silent && !CleanOutcome(c.outcome), silent && CleanOutcome(c.outcome),
          Reasons(tied) != multiset{}, Reasons(tied))
  }

  ghost predicate TiesSome(line: Line, cases: seq<Case>, table: ClassMap) {
    exists c :: c in cases && Ties(line, c, table)
  }

  /** The positions of the lines that tie one of the cases. */
  ghost function TiedPositions(lines: seq<Line>, cases: seq<Case>, table: ClassMap): set<nat> {
    set j: nat | j < |lines| && TiesSome(lines[j], cases, table)
  }

  ghost function PositionsOf(lines: seq<Line>, c: Case, table: ClassMap): set<nat> {
    set j: nat | j < |lines| && Ties(lines[j], c, table)
  }

  lemma PositionPush(lines: seq<Line>, entry: Line, c: Case, table: ClassMap)
    ensures PositionsOf(lines + [entry], c, table) == PositionsOf(lines, c, table)
            + if Ties(entry, c, table) then {|lines|} else {}
  {
    assert (lines + [entry])[|lines|] == entry;
    assert forall j :: 0 <= j < |lines| ==> (lines + [entry])[j] == lines[j];
  }

  /** The lines tied to one case, and their positions. */
  method TieLines(c: Case, lines: seq<Line>, table: ClassMap) returns (entries: seq<Line>, positions: set<nat>)
    ensures entries == Tied(c, lines, table) && positions == PositionsOf(lines, c, table)
  {
    var keys := CaseKeys(c, table);
    entries, positions := [], {};
    for i := 0 to |lines|
      invariant entries == Tied(c, lines[..i], table) && positions == PositionsOf(lines[..i], c, table)
    {
      assert lines[..i + 1] == lines[..i] + [lines[i]];
      assert lines[..i + 1][..i] == lines[..i];
      PositionPush(lines[..i], lines[i], c, table);
      if TieKey(lines[i]) in keys {
        entries := entries + [lines[i]];
        positions := positions + {i};
      }
    }
    assert lines[..|lines|] == lines;
  }

  method CollectReasons(tied: seq<Line>) returns (reasons: multiset<string>)
    ensures reasons == Reasons(tied)
  {
    reasons := multiset{};
    for i := 0 to |tied|
      invariant reasons == Reasons(tied[..i])
    {
      assert tied[..i + 1][..i] == tied[..i];
      if Refuses(tied[i]) {
        reasons := reasons + multiset{tied[i].reason};
      }
    }
    assert tied[..|tied|] == tied;
  }

  method ScoreCase(c: Case, lines: seq<Line>, table: ClassMap) returns (tally: Tally, positions: set<nat>)
    ensures tally == TallyOf(c, Tied(c, lines, table)) && tally.reasons == Reasons(Tied(c, lines, table))
    ensures positions == PositionsOf(lines, c, table)
  {
    var tied: seq<Line>;
    tied, positions := TieLines(c, lines, table);
    var bad := !CleanOutcome(c.outcome);
    var reasons := CollectReasons(tied);
    tally := Tally(Class(c), Shows(tied, VIOLATED), tied != [] && bad && AllShow(tied, PROVEN),
                   tied != [] && !bad && AllShow(tied, PROVEN), reasons != multiset{}, reasons);
  }

  // ----- The roll-up -----------------------------------------------------------------------------

  datatype Row = Row(bugClass: string, cases: nat, detected: nat, provenSilence: nat, refused: nat, cleanAgreed: nat,
                     histogram: multiset<string>)

  function One(b: bool): nat {
    if b then 1 else 0
  }

  function EmptyRow(bugClass: string): Row {
    Row(bugClass, 0, 0, 0, 0, 0, multiset{})
  }

  function AddTally(r: Row, t: Tally): Row {
    Row(r.bugClass, r.cases + 1, r.detected + One(t.detected), r.provenSilence + One(t.provenSilence),
        r.refused + One(t.refused), r.cleanAgreed + One(t.cleanAgreed), r.histogram + t.reasons)
  }

  function RowAt(rows: map<string, Row>, bugClass: string): Row {
    if bugClass in rows then rows[bugClass] else EmptyRow(bugClass)
  }

  function Rolled(tallies: seq<Tally>): map<string, Row> {
    if tallies == [] then map[]
    else
      var t, rest := tallies[|tallies| - 1], Rolled(tallies[..|tallies| - 1]);
      rest[t.bugClass := AddTally(RowAt(rest, t.bugClass), t)]
  }

  ghost function Tallies(cases: seq<Case>, lines: seq<Line>, table: ClassMap): (r: seq<Tally>)
    ensures |r| == |cases|
  {
    if cases == [] then []
    else Tallies(cases[..|cases| - 1], lines, table)
         + [TallyOf(cases[|cases| - 1], Tied(cases[|cases| - 1], lines, table))]
  }

  function RowsAt(classes: seq<string>, rows: map<string, Row>): (r: seq<Row>)
    ensures |r| == |classes|
  {
    if classes == [] then []
    else RowsAt(classes[..|classes| - 1], rows) + [RowAt(rows, classes[|classes| - 1])]
  }

  datatype Stats = Stats(lines: nat, scored: nat, tied: nat, unjoined: nat, refusalLines: nat, excluded: nat,
                         collisionExcluded: nat)

  /** The lines that reach the join. */
  ghost function Scored(cases: seq<Case>, lines: seq<Line>, table: ClassMap): seq<Line> {
    KeepAgreeing(KeepShaped(lines), cases, table)
  }

  /** One row per bug class, in order. */
  ghost function Rows(cases: seq<Case>, lines: seq<Line>, table: ClassMap): seq<Row> {
    var rolled := Rolled(Tallies(cases, Scored(cases, lines, table), table));
    RowsAt(SetKeys(rolled.Keys), rolled)
  }

  ghost function RefusalLines(cases: seq<Case>, lines: seq<Line>, table: ClassMap): nat {
    if cases == [] then 0
    else RefusalLines(cases[..|cases| - 1], lines, table) + |Reasons(Tied(cases[|cases| - 1], lines, table))|
  }

  /** The lines that tie no case. */
  ghost function UnjoinedCount(lines: seq<Line>, cases: seq<Case>, table: ClassMap): nat {
    if lines == [] then 0
    else UnjoinedCount(lines[..|lines| - 1], cases, table) + One(!TiesSome(lines[|lines| - 1], cases, table))
  }

  lemma TiedStep(lines: seq<Line>, entry: Line, cases: seq<Case>, table: ClassMap)
    ensures TiedPositions(lines + [entry], cases, table) ==
            TiedPositions(lines, cases, table) + if TiesSome(entry, cases, table) then {|lines|} else {}
    ensures |lines| !in TiedPositions(lines, cases, table)
  {
    assert (lines + [entry])[|lines|] == entry;
    assert forall j :: 0 <= j < |lines| ==> (lines + [entry])[j] == lines[j];
  }

  lemma {:induction false} TiedAndUnjoined(lines: seq<Line>, cases: seq<Case>, table: ClassMap)
    ensures |TiedPositions(lines, cases, table)| + UnjoinedCount(lines, cases, table) == |lines|
  {
    if lines == [] {
      assert TiedPositions(lines, cases, table) == {};
    } else {
      var init := lines[..|lines| - 1];
      SplitLast(lines);
      TiedAndUnjoined(init, cases, table);
      TiedStep(init, lines[|lines| - 1], cases, table);
    }
  }

  lemma PositionsPush(lines: seq<Line>, cases: seq<Case>, c: Case, table: ClassMap)
    ensures TiedPositions(lines, cases + [c], table) ==
            TiedPositions(lines, cases, table) + PositionsOf(lines, c, table)
  {
    assert forall d :: d in cases + [c] <==> d in cases || d == c;
  }

  /** What the loop over the cases has gathered from those done so far. */
  ghost predicate Gathered(done: seq<Case>, lines: seq<Line>, table: ClassMap, tallies: seq<Tally>, tied: set<nat>,
                           refusing: nat)
  {
    && tallies == Tallies(done, lines, table)
    && tied == TiedPositions(lines, done, table)
    && refusing == RefusalLines(done, lines, table)
  }

  lemma GatheredNone(lines: seq<Line>, table: ClassMap)
    ensures Gathered([], lines, table, [], {}, 0)
  {
  }

  lemma GatheredStep(done: seq<Case>, c: Case, lines: seq<Line>, table: ClassMap, tallies: seq<Tally>, tied: set<nat>,
                     refusing: nat)
    requires Gathered(done, lines, table, tallies, tied, refusing)
    ensures Gathered(done + [c], lines, table, tallies + [TallyOf(c, Tied(c, lines, table))],
                     tied + PositionsOf(lines, c, table), refusing + |Reasons(Tied(c, lines, table))|)
  {
    assert (done + [c])[..|done|] == done;
    PositionsPush(lines, done, c, table);
  }

  method TallyCases(cases: seq<Case>, lines: seq<Line>, table: ClassMap)
    returns (tallies: seq<Tally>, tied: set<nat>, refusing: nat)
    ensures Gathered(cases, lines, table, tallies, tied, refusing)
  {
    tallies, tied, refusing := [], {}, 0;
    ghost var done: seq<Case> := [];
    GatheredNone(lines, table);
    for i := 0 to |cases|
      invariant done == cases[..i]
      invariant Gathered(done, lines, table, tallies, tied, refusing)
    {
      var tally, positions := ScoreCase(cases[i], lines, table);
      GatheredStep(done, cases[i], lines, table, tallies, tied, refusing);
      done := done + [cases[i]];
      tied := tied + positions;
      tallies := tallies + [tally];
      refusing := refusing + |tally.reasons|;
    }
    assert cases[..|cases|] == cases;
  }

  method RollUp(tallies: seq<Tally>) returns (rows: map<string, Row>)
    ensures rows == Rolled(tallies)
  {
    rows := map[];
    for i := 0 to |tallies|
      invariant rows == Rolled(tallies[..i])
    {
      assert tallies[..i + 1][..i] == tallies[..i];
      var t := tallies[i];
      rows := rows[t.bugClass := AddTally(RowAt(rows, t.bugClass), t)];
    }
    assert tallies[..|tallies|] == tallies;
  }

  /** `score`. */
  method Score(cases: seq<Case>, read: seq<Line>, table: ClassMap) returns (rows: seq<Row>, stats: Stats)
    ensures rows == Rows(cases, read, table)
    ensures stats.lines == |read| && stats.scored == |Scored(cases, read, table)|
    ensures stats.excluded == |read| - |KeepShaped(read)|
    ensures stats.collisionExcluded == |KeepShaped(read)| - |Scored(cases, read, table)|
    ensures stats.tied == |TiedPositions(Scored(cases, read, table), cases, table)|
    ensures stats.unjoined == UnjoinedCount(Scored(cases, read, table), cases, table)
    ensures stats.refusalLines == RefusalLines(cases, Scored(cases, read, table), table)
  {
    var shaped, excluded := ScreenLines(read);
    var readLines := |shaped| + excluded;
    var index := CaseIndex(cases, table);
    var lines, collisions := ScreenTieCollisions(shaped, index, cases, table);
    var tallies, tied, refusing := TallyCases(cases, lines, table);
    TiedAndUnjoined(lines, cases, table);
    var rolled := RollUp(tallies);
    var classes := SortedKeys(rolled.Keys);
    rows := RowsAt(classes, rolled);
    stats := Stats(readLines, |lines|, |tied|, |lines| - |tied|, refusing, excluded, collisions);
  }
}
