/** The scorecard's cells, said of the lines read and the gold outcome of each case. */
module ScorecardMeaning {
  import opened Ordering
  import opened Scorecard
  import opened ScorecardTheorems

  // ----- Lines ----------------------------------------------------------------------------------

  /** The key a line offers: its rule, for want of one its contract, for want of both its file. */
  predicate Offers(line: Line, key: string) {
    || (line.rule != "" && key == line.rule)
    || (line.rule == "" && line.contract != "" && key == line.contract)
    || (line.rule == "" && line.contract == "" && key == line.stem)
  }

  /** The keys that name a case. */
  predicate NamesCase(key: string, c: Case, table: ClassMap) {
    && key != ""
    && (key == c.id || key == c.program || key == c.recordId || key in c.stems || (key in table && table[key] == c.id))
  }

  ghost predicate Joins(line: Line, c: Case, table: ClassMap) {
    exists key :: Offers(line, key) && NamesCase(key, c, table)
  }

  predicate ReportKey(k: string) {
    || k == "schema_version" || k == "tool_version" || k == "spec_version" || k == "solc_version"
    || k == "evm_version" || k == "optimizer_enabled" || k == "yul_artifact" || k == "contract" || k == "rule"
    || k == "verdict" || k == "confidence" || k == "reason" || k == "details" || k == "assumptions"
    || k == "bounds" || k == "params" || k == "env" || k == "initial_storage" || k == "calls"
    || k == "final_storage" || k == "failed_assertion" || k == "warnings" || k == "ghosts"
  }

  /** Every key of a report, and no other key but an invariant. */
  ghost predicate ReportShaped(keys: set<string>) {
    (forall k :: ReportKey(k) ==> k in keys) && forall k :: k in keys ==> ReportKey(k) || k == "invariant"
  }

  /** The line has one of the three printed shapes: a report, with or without an invariant; a refusal
      of the whole target; or an undecided rule. */
  ghost predicate Printed(line: Line) {
    || ReportShaped(line.keys)
    || (line.verdict == "UNKNOWN" && line.keys == {"verdict", "reason", "details"})
    || (line.verdict == "UNKNOWN" && line.keys == {"verdict", "rule", "reason", "details"})
  }

  predicate Refusal(line: Line) {
    && line.verdict == "UNKNOWN"
    && (|| line.reason == "unsupported-feature" || line.reason == "unsupported-opcode"
        || line.reason == "unsupported-storage-layout" || line.reason == "rejected-feature"
        || line.reason == "unrecognized-dispatcher" || line.reason == "external-call-abstraction"
        || line.reason == "summary-unverified" || line.reason == "multi-call-ambiguous-call-site"
        || line.reason == "multi-call-inner-arg-unsupported" || line.reason == "multi-call-stmt-between-calls"
        || line.reason == "invariant-uninitialized" || line.reason == "invariant-unchecked-functions"
        || line.reason == "tool-error" || line.reason == "unresolved-phi-source"
        || line.reason == "unresolved-branch-cond" || line.reason == "modelling-inconsistency"
        || line.reason == "solver-disagreement")
  }

  /** The gold outcome says there is no bug. */
  predicate Clean(c: Case) {
    c.outcome == "confirmed-not-exploitable" || c.outcome == "not-exploitable" || c.outcome == "clean"
    || c.outcome == "benign"
  }

  lemma JoinExact(line: Line, c: Case, table: ClassMap)
    ensures Ties(line, c, table) <==> Joins(line, c, table)
  {
    KeysExact(c, table, TieKey(line));
    assert Offers(line, TieKey(line));
    forall key | Offers(line, key) ensures key == TieKey(line) {}
  }

  lemma KeysExact(c: Case, table: ClassMap, key: string)
    ensures key in CaseKeys(c, table) <==> NamesCase(key, c, table)
  {
    assert key in SetOf(c.stems) <==> key in c.stems;
  }

  lemma ReportKeysExact(k: string)
    ensures k in ReportKeys() <==> ReportKey(k)
  {
  }

  lemma ReportForm(keys: set<string>, report: set<string>)
    ensures report <= keys && keys - report <= {"invariant"} <==>
            (forall k :: k in report ==> k in keys) && forall k :: k in keys ==> k in report || k == "invariant"
  {
    if report <= keys && keys - report <= {"invariant"} {
      forall k | k in keys ensures k in report || k == "invariant" {
        assert k in report || k in keys - report;
      }
    }
  }

  /** A report holds a key the two shorter shapes lack. */
  lemma ShapesApart()
    ensures !(ReportKeys() <= AbortKeys()) && !(ReportKeys() <= UndecidedKeys())
  {
    assert "ghosts" in ReportKeys() && "ghosts" !in AbortKeys() && "ghosts" !in UndecidedKeys();
  }

  lemma ReportExact(keys: set<string>)
    ensures ReportKeys() <= keys && keys - ReportKeys() <= {"invariant"} <==> ReportShaped(keys)
  {
    var report := ReportKeys();
    ReportForm(keys, report);
    forall k ensures k in report <==> ReportKey(k) { ReportKeysExact(k); }
  }

  lemma PrintedExact(line: Line)
    ensures Shaped(line) <==> Printed(line)
  {
    ReportExact(line.keys);
    ShapesApart();
  }

  lemma RefusalExact(line: Line)
    ensures Refuses(line) <==> Refusal(line)
  {
  }

  // ----- One case --------------------------------------------------------------------------------

  lemma TiedMembers(c: Case, lines: seq<Line>, table: ClassMap, l: Line)
    ensures l in Tied(c, lines, table) <==> l in lines && Joins(l, c, table)
  {
    KeepCounts(lines, TyingLines(c, table), l);
    JoinExact(l, c, table);
    assert l in Tied(c, lines, table) <==> l in multiset(Tied(c, lines, table));
    assert l in lines <==> l in multiset(lines);
  }

  lemma {:induction false} ReasonsShow(tied: seq<Line>)
    ensures Reasons(tied) != multiset{} <==> exists l :: l in tied && Refusal(l)
  {
    if tied != [] {
      var init, last := tied[..|tied| - 1], tied[|tied| - 1];
      SplitLast(tied);
      ReasonsShow(init);
      RefusalExact(last);
      if Refusal(last) { assert last.reason in Reasons(tied); }
    }
  }

  ghost predicate AllProven(c: Case, lines: seq<Line>, table: ClassMap) {
    && (exists l :: l in lines && Joins(l, c, table))
    && forall l :: l in lines && Joins(l, c, table) ==> l.verdict == "PROVEN"
  }

  /** The columns of a case: a joined line that reports a violation; all joined lines proven, under a
      bad outcome or under a clean one; a joined line that refuses. */
  lemma ColumnsMean(c: Case, lines: seq<Line>, table: ClassMap)
    ensures var t := TallyOf(c, Tied(c, lines, table));
            && (t.detected <==> exists l :: l in lines && Joins(l, c, table) && l.verdict == "VIOLATED")
            && (t.provenSilence <==> AllProven(c, lines, table) && !Clean(c))
            && (t.cleanAgreed <==> AllProven(c, lines, table) && Clean(c))
            && (t.refused <==> exists l :: l in lines && Joins(l, c, table) && Refusal(l))
            && t.bugClass == if c.bugClass != "" then c.bugClass else "<unknown>"
  {
    var tied := Tied(c, lines, table);
    forall l ensures l in tied <==> l in lines && Joins(l, c, table) { TiedMembers(c, lines, table, l); }
    if tied != [] { assert tied[0] in tied; }
    ReasonsShow(tied);
  }

  // ----- The rows ---------------------------------------------------------------------------------

  function ClassName(c: Case): string {
    if c.bugClass != "" then c.bugClass else "<unknown>"
  }

  /** The case counts in the column. */
  ghost predicate Counts(col: Column, c: Case, lines: seq<Line>, table: ClassMap)
    requires col != Lines
  {
    match col
    case Cases => true
    case Detected => exists l :: l in lines && Joins(l, c, table) && l.verdict == "VIOLATED"
    case ProvenSilence => AllProven(c, lines, table) && !Clean(c)
    case Refused => exists l :: l in lines && Joins(l, c, table) && Refusal(l)
    case CleanAgreed => AllProven(c, lines, table) && Clean(c)
  }

  /** The positions of the cases of a class that count in a column. */
  ghost function Counted(col: Column, bugClass: string, cases: seq<Case>, lines: seq<Line>, table: ClassMap): set<nat>
    requires col != Lines
  {
    set n: nat | n < |cases| && ClassName(cases[n]) == bugClass && Counts(col, cases[n], lines, table)
  }

  lemma CountedPush(col: Column, bugClass: string, cases: seq<Case>, c: Case, lines: seq<Line>, table: ClassMap)
    requires col != Lines
    ensures |cases| !in Counted(col, bugClass, cases, lines, table)
    ensures Counted(col, bugClass, cases + [c], lines, table) == Counted(col, bugClass, cases, lines, table)
            + if ClassName(c) == bugClass && Counts(col, c, lines, table) then {|cases|} else {}
  {
    assert (cases + [c])[|cases|] == c;
    assert forall n :: 0 <= n < |cases| ==> (cases + [c])[n] == cases[n];
  }

  lemma TallyMeans(c: Case, lines: seq<Line>, table: ClassMap, col: Column)
    requires col != Lines
    ensures var t := TallyOf(c, Tied(c, lines, table));
            t.bugClass == ClassName(c) && CellOfTally(t, col) == One(Counts(col, c, lines, table))
  {
    ColumnsMean(c, lines, table);
  }

  lemma {:induction false} ClassMeans(cases: seq<Case>, lines: seq<Line>, table: ClassMap, bugClass: string,
                                      col: Column)
    requires col != Lines
    ensures ClassTotal(Tallies(cases, lines, table), bugClass, col) ==
            |Counted(col, bugClass, cases, lines, table)|
    decreases |cases|
  {
    if cases == [] {
      assert Counted(col, bugClass, cases, lines, table) == {};
    } else {
      var init, c := cases[..|cases| - 1], cases[|cases| - 1];
      SplitLast(cases);
      ClassMeans(init, lines, table, bugClass, col);
      TallyMeans(c, lines, table, col);
      CountedPush(col, bugClass, init, c, lines, table);
      var tallies := Tallies(cases, lines, table);
      assert tallies[..|tallies| - 1] == Tallies(init, lines, table);
    }
  }

  lemma {:induction false} RowNamed(tallies: seq<Tally>, bugClass: string)
    ensures RowAt(Rolled(tallies), bugClass).bugClass == bugClass
  {
    if tallies != [] { RowNamed(tallies[..|tallies| - 1], bugClass); }
  }

  lemma {:induction false} RowsAtIndex(classes: seq<string>, rows: map<string, Row>)
    ensures forall i :: 0 <= i < |classes| ==> RowsAt(classes, rows)[i] == RowAt(rows, classes[i])
  {
    if classes != [] { RowsAtIndex(classes[..|classes| - 1], rows); }
  }

  lemma {:induction false} ClassesTallied(cases: seq<Case>, lines: seq<Line>, table: ClassMap, bugClass: string)
    ensures (exists t :: t in Tallies(cases, lines, table) && t.bugClass == bugClass) <==>
            exists c :: c in cases && ClassName(c) == bugClass
    decreases |cases|
  {
    if cases != [] {
      var init, c := cases[..|cases| - 1], cases[|cases| - 1];
      SplitLast(cases);
      ClassesTallied(init, lines, table, bugClass);
      TallyMeans(c, lines, table, Cases);
      var t := TallyOf(c, Tied(c, lines, table));
      forall u ensures u in Tallies(cases, lines, table) <==> u in Tallies(init, lines, table) || u == t {}
      forall d ensures d in cases <==> d in init || d == c {}
    }
  }

  lemma RowsShape(cases: seq<Case>, read: seq<Line>, table: ClassMap)
    ensures var rolled := Rolled(Tallies(cases, Scored(cases, read, table), table));
            var classes, rows := SetKeys(rolled.Keys), Rows(cases, read, table);
            && |rows| == |classes|
            && forall i :: 0 <= i < |rows| ==> rows[i].bugClass == classes[i] && rows[i] == RowAt(rolled, classes[i])
  {
    var tallies := Tallies(cases, Scored(cases, read, table), table);
    var rolled := Rolled(tallies);
    var classes, rows := SetKeys(rolled.Keys), Rows(cases, read, table);
    RowsAtIndex(classes, rolled);
    forall i | 0 <= i < |rows| ensures rows[i].bugClass == classes[i] && rows[i] == RowAt(rolled, classes[i]) {
      RowNamed(tallies, classes[i]);
    }
  }

  /** The rows stand in increasing order of their classes, no class twice. */
  lemma RowsOrdered(cases: seq<Case>, read: seq<Line>, table: ClassMap, i: nat, j: nat)
    requires i < j < |Rows(cases, read, table)|
    ensures var rows := Rows(cases, read, table);
            Leq(rows[i].bugClass, rows[j].bugClass) && rows[i].bugClass != rows[j].bugClass
  {
    var rolled := Rolled(Tallies(cases, Scored(cases, read, table), table));
    RowsShape(cases, read, table);
    SetKeysSorted(rolled.Keys);
    assert LeqAt(SetKeys(rolled.Keys), i, j);
  }

  /** There is a row for each class that occurs, and for no other. */
  lemma RowsCover(cases: seq<Case>, read: seq<Line>, table: ClassMap, bugClass: string)
    ensures (exists r :: r in Rows(cases, read, table) && r.bugClass == bugClass) <==>
            exists c :: c in cases && ClassName(c) == bugClass
  {
    var tallies := Tallies(cases, Scored(cases, read, table), table);
    var rolled := Rolled(tallies);
    var classes, rows := SetKeys(rolled.Keys), Rows(cases, read, table);
    RowsShape(cases, read, table);
    RowExact(tallies, bugClass, Cases);
    ClassesTallied(cases, Scored(cases, read, table), table, bugClass);
    assert bugClass in rolled <==> bugClass in SetOf(classes);
    if bugClass in classes {
      var i :| 0 <= i < |classes| && classes[i] == bugClass;
      assert rows[i] in rows;
    }
  }

  lemma RowTallied(cases: seq<Case>, read: seq<Line>, table: ClassMap, r: Row)
    requires r in Rows(cases, read, table)
    ensures r == RowAt(Rolled(Tallies(cases, Scored(cases, read, table), table)), r.bugClass)
  {
    RowsShape(cases, read, table);
  }

  /** Each cell of a row is the number of cases of its class that count in the column, by the lines
      that are scored. */
  lemma RowCells(cases: seq<Case>, read: seq<Line>, table: ClassMap, r: Row, col: Column)
    requires r in Rows(cases, read, table) && col != Lines
    ensures CellOf(r, col) == |Counted(col, r.bugClass, cases, Scored(cases, read, table), table)|
  {
    var lines := Scored(cases, read, table);
    RowTallied(cases, read, table, r);
    RowExact(Tallies(cases, lines, table), r.bugClass, col);
    ClassMeans(cases, lines, table, r.bugClass, col);
  }

  // ----- The histogram ------------------------------------------------------------------------------

  /** The positions of the joined lines that refuse for the reason. */
  ghost function RefusedFor(reason: string, c: Case, lines: seq<Line>, table: ClassMap): set<nat> {
    set m: nat | m < |lines| && Joins(lines[m], c, table) && Refusal(lines[m]) && lines[m].reason == reason
  }

  lemma RefusedPush(reason: string, c: Case, lines: seq<Line>, l: Line, table: ClassMap)
    ensures |lines| !in RefusedFor(reason, c, lines, table)
    ensures RefusedFor(reason, c, lines + [l], table) == RefusedFor(reason, c, lines, table)
            + if Joins(l, c, table) && Refusal(l) && l.reason == reason then {|lines|} else {}
  {
    assert (lines + [l])[|lines|] == l;
    assert forall m :: 0 <= m < |lines| ==> (lines + [l])[m] == lines[m];
  }

  lemma {:induction false} ReasonsMean(c: Case, lines: seq<Line>, table: ClassMap, reason: string)
    ensures Reasons(Tied(c, lines, table))[reason] == |RefusedFor(reason, c, lines, table)|
  {
    if lines == [] {
      assert RefusedFor(reason, c, lines, table) == {};
    } else {
      var init, l := lines[..|lines| - 1], lines[|lines| - 1];
      SplitLast(lines);
      ReasonsMean(c, init, table, reason);
      RefusedPush(reason, c, init, l, table);
      JoinExact(l, c, table);
      RefusalExact(l);
      var tied := Tied(c, init, table);
      if Ties(l, c, table) {
        assert (tied + [l])[..|tied|] == tied;
      } else {
        assert tied + [] == tied;
      }
    }
  }

  /** The pairs of a case of the class and a joined line that refuses for the reason. */
  ghost function Pairs(reason: string, bugClass: string, cases: seq<Case>, lines: seq<Line>, table: ClassMap)
    : set<(nat, nat)>
  {
    set n: nat, m: nat | n < |cases| && m < |lines| && ClassName(cases[n]) == bugClass
                         && m in RefusedFor(reason, cases[n], lines, table) :: (n, m)
  }

  ghost function Beside(n: nat, ms: set<nat>): set<(nat, nat)> {
    set m | m in ms :: (n, m)
  }

  lemma {:induction false} BesideCount(n: nat, ms: set<nat>)
    ensures |Beside(n, ms)| == |ms|
    decreases |ms|
  {
    if ms == {} {
      assert Beside(n, ms) == {};
    } else {
      var m :| m in ms;
      BesideCount(n, ms - {m});
      assert Beside(n, ms) == Beside(n, ms - {m}) + {(n, m)};
    }
  }

  lemma PairsPush(reason: string, bugClass: string, cases: seq<Case>, c: Case, lines: seq<Line>, table: ClassMap)
    ensures var added := if ClassName(c) == bugClass then Beside(|cases|, RefusedFor(reason, c, lines, table)) else {};
            && Pairs(reason, bugClass, cases + [c], lines, table) ==
               Pairs(reason, bugClass, cases, lines, table) + added
            && Pairs(reason, bugClass, cases, lines, table) !! added
  {
    assert (cases + [c])[|cases|] == c;
    assert forall n :: 0 <= n < |cases| ==> (cases + [c])[n] == cases[n];
  }

  lemma {:induction false} HistogramMeans(cases: seq<Case>, lines: seq<Line>, table: ClassMap, bugClass: string,
                                          reason: string)
    ensures RowAt(Rolled(Tallies(cases, lines, table)), bugClass).histogram[reason] ==
            |Pairs(reason, bugClass, cases, lines, table)|
    decreases |cases|
  {
    if cases == [] {
      assert Pairs(reason, bugClass, cases, lines, table) == {};
    } else {
      var init, c := cases[..|cases| - 1], cases[|cases| - 1];
      SplitLast(cases);
      HistogramMeans(init, lines, table, bugClass, reason);
      ReasonsMean(c, lines, table, reason);
      PairsPush(reason, bugClass, init, c, lines, table);
      BesideCount(|init|, RefusedFor(reason, c, lines, table));
      var tallies := Tallies(cases, lines, table);
      assert tallies[..|tallies| - 1] == Tallies(init, lines, table);
    }
  }

  /** The histogram of a row counts, for each reason, the pairs of a case of the class and a scored
      line joined to it that refuses for that reason. */
  lemma RowHistogram(cases: seq<Case>, read: seq<Line>, table: ClassMap, r: Row, reason: string)
    requires r in Rows(cases, read, table)
    ensures r.histogram[reason] == |Pairs(reason, r.bugClass, cases, Scored(cases, read, table), table)|
  {
    RowTallied(cases, read, table, r);
    HistogramMeans(cases, Scored(cases, read, table), table, r.bugClass, reason);
  }

  // ----- The lines that are scored ------------------------------------------------------------------

  /** A key names some case. */
  ghost predicate NamesSome(key: string, cases: seq<Case>, table: ClassMap) {
    exists c :: c in cases && NamesCase(key, c, table)
  }

  /** Both keys name a case with one id. */
  ghost predicate NameOne(a: string, b: string, cases: seq<Case>, table: ClassMap) {
    exists x, y :: x in cases && y in cases && x.id == y.id && NamesCase(a, x, table) && NamesCase(b, y, table)
  }

  /** A line read reaches the join exactly when it has a printed shape and its rule and its file do not
      name cases apart. */
  lemma ScoredMeans(cases: seq<Case>, read: seq<Line>, table: ClassMap, line: Line)
    requires line in read
    ensures line in Scored(cases, read, table) <==>
            Printed(line) && (NamesSome(line.rule, cases, table) && NamesSome(line.stem, cases, table)
                              ==> NameOne(line.rule, line.stem, cases, table))
  {
    ScoredExact(cases, read, table, line);
    PrintedExact(line);
    forall c: Case, key: string ensures key in CaseKeys(c, table) <==> NamesCase(key, c, table) {
      KeysExact(c, table, key);
    }
  }
}
