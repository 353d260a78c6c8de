/** Accounting and non-interference of the scorecard. */
module ScorecardTheorems {
  import opened Ordering
  import opened Scorecard

  // ----- Excluded lines and order leave no trace ---------------------------------------------

  /** Keeping a class of lines keeps exactly their occurrences. */
  lemma {:induction false} KeepCounts(lines: seq<Line>, good: iset<Line>, x: Line)
    ensures multiset(Keep(lines, good))[x] == if x in good then multiset(lines)[x] else 0
    ensures |Keep(lines, good)| <= |lines|
  {
    if lines != [] {
      SplitLast(lines);
      KeepCounts(lines[..|lines| - 1], good, x);
    }
  }

  lemma KeepByContents(a: seq<Line>, b: seq<Line>, good: iset<Line>)
    requires multiset(a) == multiset(b)
    ensures multiset(Keep(a, good)) == multiset(Keep(b, good))
  {
    forall x ensures multiset(Keep(a, good))[x] == multiset(Keep(b, good))[x] {
      KeepCounts(a, good, x);
      KeepCounts(b, good, x);
    }
  }

  lemma {:induction false} KeepConcat(a: seq<Line>, b: seq<Line>, good: iset<Line>)
    ensures Keep(a + b, good) == Keep(a, good) + Keep(b, good)
    decreases |b|
  {
    if b == [] {
      assert a + b == a;
    } else {
      var init, last := b[..|b| - 1], b[|b| - 1];
      SplitLast(b);
      AppendAssociative(a, init, [last]);
      assert (a + b)[..|a + b| - 1] == a + init;
      KeepConcat(a, init, good);
      AppendAssociative(Keep(a, good), Keep(init, good), if last in good then [last] else []);
    }
  }

  /** Dropped by one of the two laws. */
  ghost predicate Excluded(line: Line, cases: seq<Case>, table: ClassMap) {
    !Shaped(line) || Collides(line, cases, table)
  }

  lemma ScoredConcat(cases: seq<Case>, a: seq<Line>, b: seq<Line>, table: ClassMap)
    ensures Scored(cases, a + b, table) == Scored(cases, a, table) + Scored(cases, b, table)
  {
    KeepConcat(a, b, ShapedLines());
    KeepConcat(KeepShaped(a), KeepShaped(b), AgreeingLines(cases, table));
  }

  lemma ScoredOne(cases: seq<Case>, line: Line, table: ClassMap)
    ensures Scored(cases, [line], table) == if Excluded(line, cases, table) then [] else [line]
  {
    assert [line][..0] == [];
    assert Keep([], ShapedLines()) == [] && Keep([], AgreeingLines(cases, table)) == [];
    assert KeepShaped([line]) == if Shaped(line) then [line] else [];
  }

  /** Inserting an excluded line anywhere leaves what reaches the join unchanged. */
  lemma InsertExcluded(cases: seq<Case>, before: seq<Line>, line: Line, after: seq<Line>, table: ClassMap)
    requires Excluded(line, cases, table)
    ensures Scored(cases, before + ([line] + after), table) == Scored(cases, before + after, table)
    ensures Rows(cases, before + ([line] + after), table) == Rows(cases, before + after, table)
  {
    ScoredConcat(cases, before, [line] + after, table);
    ScoredConcat(cases, [line], after, table);
    ScoredConcat(cases, before, after, table);
    ScoredOne(cases, line, table);
    assert [] + Scored(cases, after, table) == Scored(cases, after, table);
  }

  lemma {:induction false} ReasonsConcat(a: seq<Line>, b: seq<Line>)
    ensures Reasons(a + b) == Reasons(a) + Reasons(b)
    decreases |b|
  {
    if b == [] {
      assert a + b == a;
    } else {
      var init := b[..|b| - 1];
      assert (a + b)[..|a + b| - 1] == a + init;
      ReasonsConcat(a, init);
    }
  }

  lemma ContentsBetween(p: seq<Line>, x: Line, q: seq<Line>)
    ensures multiset(p + q) == multiset((p + [x]) + q) - multiset{x}
  {
  }

  lemma ReasonsBetween(p: seq<Line>, x: Line, q: seq<Line>)
    ensures Reasons((p + [x]) + q) == Reasons(p + q) + Reasons([x])
  {
    ReasonsConcat(p + [x], q);
    ReasonsConcat(p, [x]);
    ReasonsConcat(p, q);
  }

  lemma {:induction false} ReasonsByContents(a: seq<Line>, b: seq<Line>)
    requires multiset(a) == multiset(b)
    ensures Reasons(a) == Reasons(b)
    decreases |a|
  {
    assert |multiset(a)| == |a| && |multiset(b)| == |b|;
    if a != [] {
      var init, last := a[..|a| - 1], a[|a| - 1];
      SplitLast(a);
      assert last in multiset(b);
      var j: nat :| j < |b| && b[j] == last;
      var p, q := b[..j], b[j + 1..];
      assert b == (p + [last]) + q;
      ContentsBetween(p, last, q);
      ReasonsBetween(p, last, q);
      ReasonsByContents(init, p + q);
      ReasonsConcat(init, [last]);
    }
  }

  lemma TallyByContents(c: Case, a: seq<Line>, b: seq<Line>)
    requires multiset(a) == multiset(b)
    ensures TallyOf(c, a) == TallyOf(c, b)
  {
    ReasonsByContents(a, b);
    assert |multiset(a)| == |a| && |multiset(b)| == |b|;
    forall x ensures x in a <==> x in b { assert x in multiset(a) <==> x in multiset(b); }
  }

  lemma {:induction false} TalliesByContents(cases: seq<Case>, a: seq<Line>, b: seq<Line>, table: ClassMap)
    requires multiset(a) == multiset(b)
    ensures Tallies(cases, a, table) == Tallies(cases, b, table)
    ensures RefusalLines(cases, a, table) == RefusalLines(cases, b, table)
    decreases |cases|
  {
    if cases != [] {
      var c := cases[|cases| - 1];
      TalliesByContents(cases[..|cases| - 1], a, b, table);
      KeepByContents(a, b, TyingLines(c, table));
      TallyByContents(c, Tied(c, a, table), Tied(c, b, table));
      ReasonsByContents(Tied(c, a, table), Tied(c, b, table));
    }
  }

  /** Permuting the lines read leaves the rows unchanged. */
  lemma OrderFree(cases: seq<Case>, a: seq<Line>, b: seq<Line>, table: ClassMap)
    requires multiset(a) == multiset(b)
    ensures Rows(cases, a, table) == Rows(cases, b, table)
  {
    KeepByContents(a, b, ShapedLines());
    KeepByContents(KeepShaped(a), KeepShaped(b), AgreeingLines(cases, table));
    TalliesByContents(cases, Scored(cases, a, table), Scored(cases, b, table), table);
  }

  // ----- The columns add up ----------------------------------------------------------------------

  /** The countable columns of a row. */
  datatype Column = Cases | Detected | ProvenSilence | Refused | CleanAgreed | Lines

  function CellOf(r: Row, col: Column): nat {
    match col
    case Cases => r.cases
    case Detected => r.detected
    case ProvenSilence => r.provenSilence
    case Refused => r.refused
    case CleanAgreed => r.cleanAgreed
    case Lines => |r.histogram|
  }

  function CellOfTally(t: Tally, col: Column): nat {
    match col
    case Cases => 1
    case Detected => One(t.detected)
    case ProvenSilence => One(t.provenSilence)
    case Refused => One(t.refused)
    case CleanAgreed => One(t.cleanAgreed)
    case Lines => |t.reasons|
  }

  /** The column's total over the tallies of one bug class. */
  function ClassTotal(tallies: seq<Tally>, bugClass: string, col: Column): nat {
    if tallies == [] then 0
    else
      var t := tallies[|tallies| - 1];
      ClassTotal(tallies[..|tallies| - 1], bugClass, col) + if t.bugClass == bugClass then CellOfTally(t, col) else 0
  }

  function Total(tallies: seq<Tally>, col: Column): nat {
    if tallies == [] then 0 else Total(tallies[..|tallies| - 1], col) + CellOfTally(tallies[|tallies| - 1], col)
  }

  function RowTotal(rows: seq<Row>, col: Column): nat {
    if rows == [] then 0 else RowTotal(rows[..|rows| - 1], col) + CellOf(rows[|rows| - 1], col)
  }

  /** Every row holds the totals of its class, and there is one for every class that occurs. */
  lemma {:induction false} RowExact(tallies: seq<Tally>, bugClass: string, col: Column)
    ensures CellOf(RowAt(Rolled(tallies), bugClass), col) == ClassTotal(tallies, bugClass, col)
    ensures bugClass in Rolled(tallies) <==> exists t :: t in tallies && t.bugClass == bugClass
  {
    if tallies != [] {
      SplitLast(tallies);
      RowExact(tallies[..|tallies| - 1], bugClass, col);
    }
  }

  /** The total over a list of distinct classes that covers every tally. */
  function ListTotal(classes: seq<string>, tallies: seq<Tally>, col: Column): nat {
    if classes == [] then 0
    else ListTotal(classes[..|classes| - 1], tallies, col) + ClassTotal(tallies, classes[|classes| - 1], col)
  }

  lemma {:induction false} ListTotalPush(classes: seq<string>, init: seq<Tally>, t: Tally, col: Column)
    requires Distinct(classes)
    ensures ListTotal(classes, init + [t], col) ==
            ListTotal(classes, init, col) + if t.bugClass in classes then CellOfTally(t, col) else 0
  {
    if classes != [] {
      var k := classes[|classes| - 1];
      SplitLast(classes);
      ListTotalPush(classes[..|classes| - 1], init, t, col);
      assert (init + [t])[..|init|] == init;
      assert ClassTotal(init + [t], k, col) == ClassTotal(init, k, col)
             + if t.bugClass == k then CellOfTally(t, col) else 0;
    }
  }

  lemma {:induction false} NoTallies(classes: seq<string>, col: Column)
    ensures ListTotal(classes, [], col) == 0
  {
    if classes != [] { NoTallies(classes[..|classes| - 1], col); }
  }

  lemma {:induction false} CoveredTotal(classes: seq<string>, tallies: seq<Tally>, col: Column)
    requires Distinct(classes) && forall t :: t in tallies ==> t.bugClass in classes
    ensures ListTotal(classes, tallies, col) == Total(tallies, col)
    decreases |tallies|
  {
    if tallies == [] {
      NoTallies(classes, col);
    } else {
      var init, t := tallies[..|tallies| - 1], tallies[|tallies| - 1];
      SplitLast(tallies);
      CoveredTotal(classes, init, col);
      ListTotalPush(classes, init, t, col);
    }
  }

  lemma {:induction false} RowsAtTotal(classes: seq<string>, tallies: seq<Tally>, col: Column)
    ensures RowTotal(RowsAt(classes, Rolled(tallies)), col) == ListTotal(classes, tallies, col)
    decreases |classes|
  {
    if classes != [] {
      RowsAtTotal(classes[..|classes| - 1], tallies, col);
      RowExact(tallies, classes[|classes| - 1], col);
    }
  }

  lemma ClassesCover(tallies: seq<Tally>)
    ensures Distinct(SetKeys(Rolled(tallies).Keys))
    ensures forall t :: t in tallies ==> t.bugClass in SetKeys(Rolled(tallies).Keys)
  {
    var keys := Rolled(tallies).Keys;
    SetKeysSorted(keys);
    forall t | t in tallies ensures t.bugClass in SetKeys(keys) {
      RowExact(tallies, t.bugClass, Cases);
      assert t.bugClass in SetOf(SetKeys(keys));
    }
  }

  /** Every column of the scorecard sums to its total over the cases. */
  lemma ColumnsAddUp(cases: seq<Case>, lines: seq<Line>, table: ClassMap, col: Column)
    ensures RowTotal(Rows(cases, lines, table), col) == Total(Tallies(cases, Scored(cases, lines, table), table), col)
  {
    var tallies := Tallies(cases, Scored(cases, lines, table), table);
    var classes := SetKeys(Rolled(tallies).Keys);
    ClassesCover(tallies);
    RowsAtTotal(classes, tallies, col);
    CoveredTotal(classes, tallies, col);
  }

  lemma {:induction false} TalliesTotal(cases: seq<Case>, lines: seq<Line>, table: ClassMap)
    ensures Total(Tallies(cases, lines, table), Cases) == |cases|
    ensures Total(Tallies(cases, lines, table), Lines) == RefusalLines(cases, lines, table)
    decreases |cases|
  {
    if cases != [] {
      var init := cases[..|cases| - 1];
      TalliesTotal(init, lines, table);
      assert Tallies(cases, lines, table)[..|cases| - 1] == Tallies(init, lines, table);
    }
  }

  /** Class counts sum to the cases, and histogram counts to the refusal lines. */
  lemma Accounting(cases: seq<Case>, lines: seq<Line>, table: ClassMap)
    ensures RowTotal(Rows(cases, lines, table), Cases) == |cases|
    ensures RowTotal(Rows(cases, lines, table), Lines) == RefusalLines(cases, Scored(cases, lines, table), table)
  {
    ColumnsAddUp(cases, lines, table, Cases);
    ColumnsAddUp(cases, lines, table, Lines);
    TalliesTotal(cases, Scored(cases, lines, table), table);
  }

  /** How many of the lines are in a class. */
  ghost function CountOf(lines: seq<Line>, good: iset<Line>): nat {
    |Keep(lines, good)|
  }

  lemma {:induction false} KeepTwice(lines: seq<Line>, a: iset<Line>, b: iset<Line>)
    ensures Keep(Keep(lines, a), b) == Keep(lines, a * b)
  {
    if lines != [] {
      var init, last := lines[..|lines| - 1], lines[|lines| - 1];
      KeepTwice(init, a, b);
      KeepConcat(Keep(init, a), if last in a then [last] else [], b);
      if last in a {
        assert [last][..0] == [];
        assert Keep([], b) == [];
      }
    }
  }

  lemma {:induction false} CountBoth(lines: seq<Line>, all: iset<Line>, part: iset<Line>)
    ensures CountOf(lines, all) == CountOf(lines, all * part) + CountOf(lines, all - part)
  {
    if lines != [] { CountBoth(lines[..|lines| - 1], all, part); }
  }

  lemma {:induction false} CountRest(lines: seq<Line>, part: iset<Line>)
    ensures CountOf(lines, part) + CountOf(lines, iset l | l !in part) == |lines|
  {
    if lines != [] { CountRest(lines[..|lines| - 1], part); }
  }

  lemma {:induction false} UnjoinedIsCount(lines: seq<Line>, cases: seq<Case>, table: ClassMap)
    ensures UnjoinedCount(lines, cases, table) == CountOf(lines, iset l | !TiesSome(l, cases, table))
  {
    if lines != [] { UnjoinedIsCount(lines[..|lines| - 1], cases, table); }
  }

  ghost function Joining(cases: seq<Case>, table: ClassMap): iset<Line> {
    iset l | TiesSome(l, cases, table)
  }

  /** Every count of the statistics is the number of lines read of one kind: without a printed
      shape; shaped but colliding; scored and tying some case; scored and tying none. */
  lemma LinesAccounted(cases: seq<Case>, lines: seq<Line>, table: ClassMap)
    ensures var shaped, agreeing := ShapedLines(), AgreeingLines(cases, table);
            var scored := Scored(cases, lines, table);
            && |lines| - |KeepShaped(lines)| == CountOf(lines, iset l | l !in shaped)
            && |KeepShaped(lines)| - |scored| == CountOf(lines, shaped - agreeing)
            && |TiedPositions(scored, cases, table)| == CountOf(lines, shaped * agreeing * Joining(cases, table))
            && UnjoinedCount(scored, cases, table) == CountOf(lines, shaped * agreeing - Joining(cases, table))
  {
    var shaped, agreeing := ShapedLines(), AgreeingLines(cases, table);
    var scored := Scored(cases, lines, table);
    CountRest(lines, shaped);
    CountBoth(lines, shaped, agreeing);
    KeepTwice(lines, shaped, agreeing);
    CountBoth(lines, shaped * agreeing, Joining(cases, table));
    TiedAndUnjoined(scored, cases, table);
    UnjoinedIsCount(scored, cases, table);
    var rest := iset l | !TiesSome(l, cases, table);
    KeepTwice(lines, shaped * agreeing, rest);
    assert (shaped * agreeing) * rest == shaped * agreeing - Joining(cases, table);
  }

  // ----- What the refusal statistic counts ------------------------------------------------------

  /** How many positions of the case list a line ties. */
  ghost function TieCount(line: Line, cases: seq<Case>, table: ClassMap): nat {
    if cases == [] then 0
    else TieCount(line, cases[..|cases| - 1], table) + One(Ties(line, cases[|cases| - 1], table))
  }

  lemma {:induction false} TieCountPositive(line: Line, cases: seq<Case>, table: ClassMap)
    ensures TieCount(line, cases, table) > 0 <==> TiesSome(line, cases, table)
  {
    if cases != [] {
      SplitLast(cases);
      TieCountPositive(line, cases[..|cases| - 1], table);
    }
  }

  /** The refusing lines, each as often as it ties a position. */
  ghost function RefusalTies(lines: seq<Line>, cases: seq<Case>, table: ClassMap): nat {
    if lines == [] then 0
    else
      var last := lines[|lines| - 1];
      RefusalTies(lines[..|lines| - 1], cases, table) + if Refuses(last) then TieCount(last, cases, table) else 0
  }

  lemma ReasonsPush(tied: seq<Line>, line: Line)
    ensures |Reasons(tied + [line])| == |Reasons(tied)| + One(Refuses(line))
  {
    assert (tied + [line])[..|tied|] == tied;
  }

  lemma {:induction false} OneCaseTies(lines: seq<Line>, cases: seq<Case>, c: Case, table: ClassMap)
    ensures RefusalTies(lines, cases + [c], table) ==
            RefusalTies(lines, cases, table) + |Reasons(Tied(c, lines, table))|
  {
    if lines != [] {
      var init, last := lines[..|lines| - 1], lines[|lines| - 1];
      OneCaseTies(init, cases, c, table);
      assert (cases + [c])[..|cases|] == cases;
      ReasonsPush(Tied(c, init, table), last);
      assert Tied(c, lines, table) ==
             if Ties(last, c, table) then Tied(c, init, table) + [last] else Tied(c, init, table);
      assert TieCount(last, cases + [c], table) == TieCount(last, cases, table) + One(Ties(last, c, table));
    } else {
      assert Reasons(Tied(c, lines, table)) == multiset{};
    }
  }

  /** The statistic counts pairs: a refusing line once for every position it ties. */
  lemma {:induction false} RefusalsByLine(cases: seq<Case>, lines: seq<Line>, table: ClassMap)
    ensures RefusalLines(cases, lines, table) == RefusalTies(lines, cases, table)
    decreases |cases|
  {
    if cases == [] {
      NoTies(lines, table);
    } else {
      RefusalsByLine(cases[..|cases| - 1], lines, table);
      SplitLast(cases);
      OneCaseTies(lines, cases[..|cases| - 1], cases[|cases| - 1], table);
    }
  }

  lemma {:induction false} NoTies(lines: seq<Line>, table: ClassMap)
    ensures RefusalTies(lines, [], table) == 0
  {
    if lines != [] { NoTies(lines[..|lines| - 1], table); }
  }

  ghost function RefusingJoined(cases: seq<Case>, table: ClassMap): iset<Line> {
    iset l | Refuses(l) && TiesSome(l, cases, table)
  }

  lemma {:induction false} TiesAtLeastLines(lines: seq<Line>, cases: seq<Case>, table: ClassMap)
    ensures RefusalTies(lines, cases, table) >= CountOf(lines, RefusingJoined(cases, table))
    ensures RefusalTies(lines, cases, table) == CountOf(lines, RefusingJoined(cases, table)) <==>
            forall l :: l in lines && Refuses(l) ==> TieCount(l, cases, table) <= 1
  {
    if lines != [] {
      SplitLast(lines);
      TiesAtLeastLines(lines[..|lines| - 1], cases, table);
      TieCountPositive(lines[|lines| - 1], cases, table);
    }
  }

  /** It is never below the number of refusing lines scored and tied, and equals it exactly when
      no refusing line ties two positions of the case list. */
  lemma RefusalLinesExact(cases: seq<Case>, lines: seq<Line>, table: ClassMap)
    ensures var scored := Scored(cases, lines, table);
            && RefusalLines(cases, scored, table) >= CountOf(scored, RefusingJoined(cases, table))
            && (RefusalLines(cases, scored, table) == CountOf(scored, RefusingJoined(cases, table)) <==>
                forall l :: l in scored && Refuses(l) ==> TieCount(l, cases, table) <= 1)
  {
    RefusalsByLine(cases, Scored(cases, lines, table), table);
    TiesAtLeastLines(Scored(cases, lines, table), cases, table);
  }

  // ----- The verdict columns exclude each other ------------------------------------------------------

  lemma {:induction false} RefusalShows(tied: seq<Line>)
    ensures Reasons(tied) != multiset{} ==> Shows(tied, UNKNOWN)
  {
    if tied != [] {
      SplitLast(tied);
      RefusalShows(tied[..|tied| - 1]);
    }
  }

  /** No case counts in both proven_silence and clean_agreed, and a case in either is neither
      detected nor refused. */
  lemma VerdictsExclude(c: Case, tied: seq<Line>)
    ensures var t := TallyOf(c, tied);
            && !(t.provenSilence && t.cleanAgreed)
            && (t.provenSilence || t.cleanAgreed ==> !t.detected && !t.refused)
  {
    RefusalShows(tied);
    assert VIOLATED != PROVEN && UNKNOWN != PROVEN by {
      assert |VIOLATED| != |PROVEN| && |UNKNOWN| != |PROVEN|;
    }
  }

  lemma IdsWitness(cases: seq<Case>, table: ClassMap, key: string, id: string) returns (x: Case)
    requires id in IdsOf(cases, table, key)
    ensures x in cases && x.id == id && key in CaseKeys(x, table)
  {
    x :| x in cases && key in CaseKeys(x, table) && x.id == id;
  }

  /** Some case is named by both keys. */
  ghost predicate NamedTogether(cases: seq<Case>, table: ClassMap, a: string, b: string) {
    exists x, y :: x in cases && y in cases && x.id == y.id && a in CaseKeys(x, table) && b in CaseKeys(y, table)
  }

  lemma SharedId(cases: seq<Case>, table: ClassMap, a: string, b: string)
    ensures IdsOf(cases, table, a) * IdsOf(cases, table, b) != {} <==> NamedTogether(cases, table, a, b)
  {
    if id :| id in IdsOf(cases, table, a) * IdsOf(cases, table, b) {
      var x := IdsWitness(cases, table, a, id);
      var y := IdsWitness(cases, table, b, id);
    }
    if NamedTogether(cases, table, a, b) {
      var x, y :| x in cases && y in cases && x.id == y.id && a in CaseKeys(x, table) && b in CaseKeys(y, table);
      assert x.id in IdsOf(cases, table, a) * IdsOf(cases, table, b);
    }
  }

  lemma NamesSome(cases: seq<Case>, table: ClassMap, key: string)
    ensures IdsOf(cases, table, key) != {} <==> exists c :: c in cases && key in CaseKeys(c, table)
  {
    if id :| id in IdsOf(cases, table, key) {
      var c := IdsWitness(cases, table, key, id);
    }
    if c :| c in cases && key in CaseKeys(c, table) {
      assert c.id in IdsOf(cases, table, key);
    }
  }

  lemma ScoredMembers(cases: seq<Case>, lines: seq<Line>, table: ClassMap, line: Line)
    ensures line in Scored(cases, lines, table) <==> line in lines && Shaped(line) && !Collides(line, cases, table)
  {
    KeepCounts(lines, ShapedLines(), line);
    KeepCounts(KeepShaped(lines), AgreeingLines(cases, table), line);
    assert line in Scored(cases, lines, table) <==> line in multiset(Scored(cases, lines, table));
    assert line in lines <==> line in multiset(lines);
  }

  /** A line read is scored exactly when it has a printed shape and its rule and its results file,
      when each names a case, name one together. */
  lemma ScoredExact(cases: seq<Case>, lines: seq<Line>, table: ClassMap, line: Line)
    requires line in lines
    ensures line in Scored(cases, lines, table) <==>
            Shaped(line) &&
            ((exists c :: c in cases && line.rule in CaseKeys(c, table))
             && (exists d :: d in cases && line.stem in CaseKeys(d, table))
             ==> NamedTogether(cases, table, line.rule, line.stem))
  {
    ScoredMembers(cases, lines, table, line);
    NamesSome(cases, table, line.rule);
    NamesSome(cases, table, line.stem);
    SharedId(cases, table, line.rule, line.stem);
  }
}
