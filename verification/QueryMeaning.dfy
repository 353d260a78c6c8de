/** What a pattern query answers, said of the contracts, the machine names and the three stores. */
module QueryMeaning {
  import opened Ordering
  import opened Text
  import opened AnchorModel
  import opened PathText
  import opened Convergence
  import opened AnchorMeaning
  import opened AnchorQuery
  import opened ConvergenceTheorems
  import opened AnchorQueryTheorems

  // ----- What a path pattern reaches ------------------------------------------------------------

  /** The pattern's path is the target, a tail of it behind a slash, or has it as such a tail. */
  ghost predicate Reaches(p: string, target: string) {
    p == "" || p == target || EndsWith(target, "/" + p) || EndsWith(p, "/" + target)
  }

  lemma ReachesExact(p: string, target: string)
    ensures PathMatches(p, target) <==> Reaches(p, target)
  {
    SuffixExact(p, "/" + target);
    SuffixExact(target, "/" + p);
  }

  /** The function and the line asked for, when there are any. */
  predicate Qualifies(q: Pattern, fn: string, line: int) {
    (q.fn != "" ==> fn == q.fn) && (q.line != 0 ==> line == q.line)
  }

  ghost predicate RowAsked(contracts: seq<Contract>, row: Row, q: Pattern) {
    exists name, path, fn, line ::
      Site(row, name, fn, line) && NamedAt(contracts, name, path) && Reaches(q.path, path) && Qualifies(q, fn, line)
  }

  ghost predicate PriorityAsked(contracts: seq<Contract>, machines: seq<string>, p: Priority, q: Pattern) {
    && (p.status == "" || p.status == "open") && q.path != ""
    && exists component, path :: component in p.components && Leads(contracts, machines, component, path)
                               && Reaches(q.path, path)
  }

  /** Some listed line is at most the line and some is at least it. */
  predicate Around(lines: seq<int>, line: int) {
    (exists l :: l in lines && l <= line) && (exists l :: l in lines && line <= l)
  }

  ghost predicate EntryAsked(contracts: seq<Contract>, a: Affected, q: Pattern) {
    var file := if a.path != "" then a.path else a.file;
    && file != ""
    && (q.fn != "" ==> a.fn == q.fn)
    && (q.line != 0 ==> Around(a.lines, q.line))
    && (Reaches(q.path, NormalizePath(file)) || exists path :: Resolves(contracts, a, path) && Reaches(q.path, path))
  }

  ghost predicate FindingAsked(contracts: seq<Contract>, f: Finding, q: Pattern) {
    exists a :: a in f.affected && EntryAsked(contracts, a, q)
  }

  lemma SiteAsked(m: Model, contracts: seq<Contract>, machines: seq<string>, row: Row, q: Pattern, c: RowCite)
    requires IndexOf(m, contracts, machines) && c in RowCitations(m, row) && SiteMatched(c, q)
    ensures RowAsked(contracts, row, q)
  {
    RowExact(m, contracts, machines, row, c);
    ReachesExact(q.path, c.path);
  }

  lemma AskedSite(m: Model, contracts: seq<Contract>, machines: seq<string>, row: Row, q: Pattern) returns (c: RowCite)
    requires IndexOf(m, contracts, machines) && RowAsked(contracts, row, q)
    ensures c in RowCitations(m, row) && SiteMatched(c, q)
  {
    var name, path, fn, line :| Site(row, name, fn, line) && NamedAt(contracts, name, path)
                                && Reaches(q.path, path) && Qualifies(q, fn, line);
    c := RowCite(path, Shared(contracts, name, path), fn, line);
    RowExact(m, contracts, machines, row, c);
    ReachesExact(q.path, path);
  }

  lemma RowAskedExact(m: Model, contracts: seq<Contract>, machines: seq<string>, row: Row, q: Pattern)
    requires IndexOf(m, contracts, machines)
    ensures RowMatched(m, row, q) <==> RowAsked(contracts, row, q)
  {
    if RowMatched(m, row, q) {
      var c :| c in RowCitations(m, row) && SiteMatched(c, q);
      SiteAsked(m, contracts, machines, row, q, c);
    }
    if RowAsked(contracts, row, q) {
      var c := AskedSite(m, contracts, machines, row, q);
    }
  }

  lemma TargetExact(m: Model, contracts: seq<Contract>, machines: seq<string>, components: seq<string>, path: string)
    requires IndexOf(m, contracts, machines)
    ensures path in TargetsOf(m, components) <==>
            exists component :: component in components && Leads(contracts, machines, component, path)
  {
    if path in TargetsOf(m, components) {
      var component, c :| component in components && c in ComponentCitations(m, component) && c.path == path;
      ComponentExact(m, contracts, machines, component, c);
    }
    if component :| component in components && Leads(contracts, machines, component, path) {
      var c := Citation(path, Shared(contracts, component, path));
      ComponentExact(m, contracts, machines, component, c);
      assert c in ComponentCitations(m, component);
    }
  }

  lemma PriorityAskedExact(m: Model, contracts: seq<Contract>, machines: seq<string>, p: Priority, q: Pattern)
    requires IndexOf(m, contracts, machines)
    ensures PriorityMatched(m, p, q) <==> PriorityAsked(contracts, machines, p, q)
  {
    forall path
      ensures path in TargetsOf(m, p.components) <==>
              exists component :: component in p.components && Leads(contracts, machines, component, path)
      ensures PathMatches(q.path, path) <==> Reaches(q.path, path)
    {
      TargetExact(m, contracts, machines, p.components, path);
      ReachesExact(q.path, path);
    }
  }

  lemma EntryAskedExact(m: Model, contracts: seq<Contract>, machines: seq<string>, a: Affected, q: Pattern)
    requires IndexOf(m, contracts, machines)
    ensures AffectedMatched(m, a, q) <==> EntryAsked(contracts, a, q)
  {
    ReachesExact(q.path, NormalizePath(RawOf(a)));
    forall path
      ensures ResolvesTo(m, RawOf(a), path) <==> Resolves(contracts, a, path)
      ensures PathMatches(q.path, path) <==> Reaches(q.path, path)
    {
      ResolvesExact(m, contracts, machines, a, path);
      ReachesExact(q.path, path);
    }
  }

  lemma FindingAskedExact(m: Model, contracts: seq<Contract>, machines: seq<string>, f: Finding, q: Pattern)
    requires IndexOf(m, contracts, machines)
    ensures FindingMatched(m, f, q) <==> FindingAsked(contracts, f, q)
  {
    forall a ensures AffectedMatched(m, a, q) <==> EntryAsked(contracts, a, q) {
      EntryAskedExact(m, contracts, machines, a, q);
    }
  }

  // ----- The answer -----------------------------------------------------------------------------

  lemma {:induction false} RowsListed(m: Model, rows: seq<Row>, priorities: seq<Priority>, q: Pattern,
                                      out: seq<RowMatch>, r: RowMatch)
    requires RowsAnswered(m, rows, priorities, q, out) && r in out
    ensures exists row :: row in rows && row.id != "" && RowMatched(m, row, q) && RowAnswer(row, priorities, r)
    decreases |rows|
  {
    var n := |rows| - 1;
    SplitLast(rows);
    if rows[n].id == "" || !RowMatched(m, rows[n], q) {
      RowsListed(m, rows[..n], priorities, q, out, r);
    } else if r != out[|out| - 1] {
      SplitLast(out);
      RowsListed(m, rows[..n], priorities, q, out[..|out| - 1], r);
    } else {
      assert rows[n] in rows;
    }
  }

  lemma {:induction false} OpenListed(m: Model, priorities: seq<Priority>, q: Pattern, id: string)
    ensures id in OpenMatches(m, priorities, q) <==>
            exists p :: p in priorities && PriorityMatched(m, p, q) && p.id == id
  {
    if priorities != [] {
      SplitLast(priorities);
      OpenListed(m, priorities[..|priorities| - 1], q, id);
    }
  }

  lemma {:induction false} FindingsListed(m: Model, findings: seq<Finding>, q: Pattern, id: string)
    ensures id in FindingsMatched(m, findings, q) <==>
            exists f :: f in findings && f.id != "" && FindingMatched(m, f, q) && f.id == id
  {
    if findings != [] {
      SplitLast(findings);
      FindingsListed(m, findings[..|findings| - 1], q, id);
    }
  }

  /** The row's own answer: its tier, the status of the first priority that claims it, and whether
      that status settles it. */
  ghost predicate AnswersRow(row: Row, priorities: seq<Priority>, r: RowMatch) {
    && r.rowId == row.id && r.tier == row.tier
    && (r.dispositioned <==>
        r.disposition == "answered" || r.disposition == "not-applicable" || r.disposition == "deprioritized")
    && ((r.disposition == "undispositioned" && forall p :: p in priorities ==> p.probeRow != Some(row.id))
        || exists i :: 0 <= i < |priorities| && priorities[i].probeRow == Some(row.id)
                       && (forall j :: 0 <= j < i ==> priorities[j].probeRow != Some(row.id))
                       && r.disposition == if priorities[i].status == "" then "undispositioned"
                          else priorities[i].status)
  }

  lemma AnswersRowExact(row: Row, priorities: seq<Priority>, r: RowMatch)
    ensures RowAnswer(row, priorities, r) <==> AnswersRow(row, priorities, r)
  {
    SettledStatuses(r.disposition);
  }

  lemma SettledStatuses(s: string)
    ensures s in DISPOSITIONED <==> s == "answered" || s == "not-applicable" || s == "deprioritized"
  {
    assert DISPOSITIONED[0] == "answered" && DISPOSITIONED[1] == "not-applicable"
           && DISPOSITIONED[2] == "deprioritized";
  }

  /** A query answers exactly the rows, the open priorities and the findings its pattern asks for,
      each row with its disposition. */
  ghost predicate AnswersAsked(contracts: seq<Contract>, machines: seq<string>, arts: Artifacts, q: Pattern,
                               out: Matches)
  {
    && (forall row :: row in arts.rows && row.id != "" && RowAsked(contracts, row, q) ==>
          exists r :: r in out.rows && r.rowId == row.id)
    && (forall r :: r in out.rows ==>
          exists row :: row in arts.rows && row.id != "" && RowAsked(contracts, row, q)
            && AnswersRow(row, arts.priorities, r))
    && (forall id :: id in out.priorities <==>
          exists p :: p in arts.priorities && p.id == id && PriorityAsked(contracts, machines, p, q))
    && (forall id :: id in out.findings <==>
          exists f :: f in arts.findings && f.id == id && id != "" && FindingAsked(contracts, f, q))
  }

  lemma QueryRowsExact(m: Model, contracts: seq<Contract>, machines: seq<string>, arts: Artifacts, q: Pattern,
                       out: seq<RowMatch>)
    requires IndexOf(m, contracts, machines) && RowsAnswered(m, arts.rows, arts.priorities, q, out)
    ensures forall row :: row in arts.rows && row.id != "" && RowAsked(contracts, row, q) ==>
            exists r :: r in out && r.rowId == row.id
    ensures forall r :: r in out ==>
              exists row :: row in arts.rows && row.id != "" && RowAsked(contracts, row, q)
                && AnswersRow(row, arts.priorities, r)
  {
    forall row | row in arts.rows && row.id != "" && RowAsked(contracts, row, q)
      ensures exists r :: r in out && r.rowId == row.id
    {
      RowAskedExact(m, contracts, machines, row, q);
      AnsweredRow(m, arts.rows, arts.priorities, q, out, row);
    }
    forall r | r in out
      ensures exists row :: row in arts.rows && row.id != "" && RowAsked(contracts, row, q)
                        && AnswersRow(row, arts.priorities, r)
    {
      RowsListed(m, arts.rows, arts.priorities, q, out, r);
      var row :| row in arts.rows && row.id != "" && RowMatched(m, row, q) && RowAnswer(row, arts.priorities, r);
      RowAskedExact(m, contracts, machines, row, q);
      AnswersRowExact(row, arts.priorities, r);
    }
  }

  lemma QueryExact(m: Model, contracts: seq<Contract>, machines: seq<string>, arts: Artifacts, pattern: string,
                   out: Matches)
    requires IndexOf(m, contracts, machines) && Answers(m, arts, pattern, out)
    ensures match ParsePattern(pattern)
            case None => out == Matches([], [], [])
            case Some(q) => AnswersAsked(contracts, machines, arts, q, out)
  {
    if ParsePattern(pattern).Some? {
      var q := ParsePattern(pattern).value;
      QueryRowsExact(m, contracts, machines, arts, q, out.rows);
      forall id
        ensures id in out.priorities <==>
                exists p :: p in arts.priorities && p.id == id && PriorityAsked(contracts, machines, p, q)
      {
        OpenListed(m, arts.priorities, q, id);
        forall p ensures PriorityMatched(m, p, q) <==> PriorityAsked(contracts, machines, p, q) {
          PriorityAskedExact(m, contracts, machines, p, q);
        }
      }
      forall id
        ensures id in out.findings <==>
                exists f :: f in arts.findings && f.id == id && id != "" && FindingAsked(contracts, f, q)
      {
        FindingsListed(m, arts.findings, q, id);
        forall f ensures FindingMatched(m, f, q) <==> FindingAsked(contracts, f, q) {
          FindingAskedExact(m, contracts, machines, f, q);
        }
      }
    }
  }

  // ----- The order of the answers --------------------------------------------------------------------

  ghost predicate Ascends(positions: seq<nat>) {
    forall i, j :: 0 <= i < j < |positions| ==> positions[i] < positions[j]
  }

  /** The positions of the rows a pattern asks for. */
  ghost predicate RowPositions(contracts: seq<Contract>, rows: seq<Row>, q: Pattern, positions: seq<nat>) {
    && Ascends(positions)
    && forall n: nat :: n in positions <==> n < |rows| && rows[n].id != "" && RowAsked(contracts, rows[n], q)
  }

  ghost predicate RowsAt(rows: seq<Row>, priorities: seq<Priority>, positions: seq<nat>, out: seq<RowMatch>) {
    && |out| == |positions|
    && forall i :: 0 <= i < |out| ==> positions[i] < |rows| && AnswersRow(rows[positions[i]], priorities, out[i])
  }

  lemma RowPositionsPush(contracts: seq<Contract>, rows: seq<Row>, row: Row, q: Pattern, positions: seq<nat>)
    requires RowPositions(contracts, rows, q, positions)
    ensures RowPositions(contracts, rows + [row], q,
                         if row.id != "" && RowAsked(contracts, row, q) then positions + [|rows|] else positions)
  {
    var more := rows + [row];
    assert forall n: nat :: n < |rows| ==> more[n] == rows[n];
    assert forall i :: 0 <= i < |positions| ==> positions[i] in positions;
  }

  lemma RowsAtPush(rows: seq<Row>, row: Row, priorities: seq<Priority>, positions: seq<nat>, out: seq<RowMatch>,
                   r: RowMatch)
    requires RowsAt(rows, priorities, positions, out)
    ensures RowsAt(rows + [row], priorities, positions, out)
    ensures AnswersRow(row, priorities, r) ==> RowsAt(rows + [row], priorities, positions + [|rows|], out + [r])
  {
    var more := rows + [row];
    assert more[|rows|] == row;
    assert forall n: nat :: n < |rows| ==> more[n] == rows[n];
  }

  lemma AnsweredParts(m: Model, rows: seq<Row>, priorities: seq<Priority>, q: Pattern, out: seq<RowMatch>)
    requires rows != [] && RowsAnswered(m, rows, priorities, q, out)
    ensures var init, row := rows[..|rows| - 1], rows[|rows| - 1];
            if row.id == "" || !RowMatched(m, row, q) then RowsAnswered(m, init, priorities, q, out)
            else out != [] && RowsAnswered(m, init, priorities, q, out[..|out| - 1])
                 && AnswersRow(row, priorities, out[|out| - 1])
  {
    if out != [] { AnswersRowExact(rows[|rows| - 1], priorities, out[|out| - 1]); }
  }

  lemma RowsPush(contracts: seq<Contract>, rows: seq<Row>, row: Row, priorities: seq<Priority>, q: Pattern,
                 positions: seq<nat>, out: seq<RowMatch>, r: RowMatch)
    requires RowPositions(contracts, rows, q, positions) && RowsAt(rows, priorities, positions, out)
    requires row.id != "" && RowAsked(contracts, row, q) && AnswersRow(row, priorities, r)
    ensures RowPositions(contracts, rows + [row], q, positions + [|rows|])
    ensures RowsAt(rows + [row], priorities, positions + [|rows|], out + [r])
  {
    RowPositionsPush(contracts, rows, row, q, positions);
    RowsAtPush(rows, row, priorities, positions, out, r);
  }

  lemma RowsSkip(contracts: seq<Contract>, rows: seq<Row>, row: Row, priorities: seq<Priority>, q: Pattern,
                 positions: seq<nat>, out: seq<RowMatch>)
    requires RowPositions(contracts, rows, q, positions) && RowsAt(rows, priorities, positions, out)
    requires row.id == "" || !RowAsked(contracts, row, q)
    ensures RowPositions(contracts, rows + [row], q, positions) && RowsAt(rows + [row], priorities, positions, out)
  {
    RowPositionsPush(contracts, rows, row, q, positions);
    RowsAtPush(rows, row, priorities, positions, out, RowMatch("", 0, "", false));
  }

  /** The rows are answered in the order they are listed in, each once. */
  lemma {:induction false} RowsInOrder(m: Model, contracts: seq<Contract>, machines: seq<string>, rows: seq<Row>,
                                       priorities: seq<Priority>, q: Pattern, out: seq<RowMatch>)
    returns (positions: seq<nat>)
    requires IndexOf(m, contracts, machines) && RowsAnswered(m, rows, priorities, q, out)
    ensures RowPositions(contracts, rows, q, positions) && RowsAt(rows, priorities, positions, out)
    decreases |rows|
  {
    positions := [];
    if rows != [] {
      var init, row := rows[..|rows| - 1], rows[|rows| - 1];
      SplitLast(rows);
      AnsweredParts(m, rows, priorities, q, out);
      RowAskedExact(m, contracts, machines, row, q);
      if row.id == "" || !RowMatched(m, row, q) {
        positions := RowsInOrder(m, contracts, machines, init, priorities, q, out);
        RowsSkip(contracts, init, row, priorities, q, positions, out);
      } else {
        var before := RowsInOrder(m, contracts, machines, init, priorities, q, out[..|out| - 1]);
        RowsPush(contracts, init, row, priorities, q, before, out[..|out| - 1], out[|out| - 1]);
        SplitLast(out);
        positions := before + [|init|];
      }
    }
  }

  ghost predicate PriorityPositions(contracts: seq<Contract>, machines: seq<string>, priorities: seq<Priority>,
                                    q: Pattern, positions: seq<nat>)
  {
    && Ascends(positions)
    && forall n: nat :: n in positions <==> n < |priorities| && PriorityAsked(contracts, machines, priorities[n], q)
  }

  ghost predicate FindingPositions(contracts: seq<Contract>, findings: seq<Finding>, q: Pattern, positions: seq<nat>) {
    && Ascends(positions)
    && forall n: nat :: n in positions <==>
       n < |findings| && findings[n].id != "" && FindingAsked(contracts, findings[n], q)
  }

  lemma PriorityPositionsPush(contracts: seq<Contract>, machines: seq<string>, priorities: seq<Priority>, p: Priority,
                              q: Pattern, positions: seq<nat>)
    requires PriorityPositions(contracts, machines, priorities, q, positions)
    ensures PriorityPositions(contracts, machines, priorities + [p], q,
                              if PriorityAsked(contracts, machines, p, q) then positions + [|priorities|]
                                else positions)
  {
    var more := priorities + [p];
    assert forall n: nat :: n < |priorities| ==> more[n] == priorities[n];
    assert forall i :: 0 <= i < |positions| ==> positions[i] in positions;
  }

  lemma FindingPositionsPush(contracts: seq<Contract>, findings: seq<Finding>, f: Finding, q: Pattern,
                             positions: seq<nat>)
    requires FindingPositions(contracts, findings, q, positions)
    ensures FindingPositions(contracts, findings + [f], q,
                             if f.id != "" && FindingAsked(contracts, f, q) then positions + [|findings|]
                               else positions)
  {
    var more := findings + [f];
    assert forall n: nat :: n < |findings| ==> more[n] == findings[n];
    assert forall i :: 0 <= i < |positions| ==> positions[i] in positions;
  }

  ghost predicate PrioritiesAt(priorities: seq<Priority>, positions: seq<nat>, out: seq<string>) {
    |out| == |positions| && forall i :: 0 <= i < |out| ==>
      positions[i] < |priorities| && out[i] == priorities[positions[i]].id
  }

  lemma PrioritiesAtPush(priorities: seq<Priority>, p: Priority, positions: seq<nat>, out: seq<string>)
    requires PrioritiesAt(priorities, positions, out)
    ensures PrioritiesAt(priorities + [p], positions, out)
    ensures PrioritiesAt(priorities + [p], positions + [|priorities|], out + [p.id])
  {
    var more := priorities + [p];
    assert more[|priorities|] == p;
    assert forall n: nat :: n < |priorities| ==> more[n] == priorities[n];
  }

  /** So are the open priorities, */
  lemma {:induction false} PrioritiesInOrder(m: Model, contracts: seq<Contract>, machines: seq<string>,
                                             priorities: seq<Priority>, q: Pattern) returns (positions: seq<nat>)
    requires IndexOf(m, contracts, machines)
    ensures PriorityPositions(contracts, machines, priorities, q, positions)
    ensures PrioritiesAt(priorities, positions, OpenMatches(m, priorities, q))
  {
    positions := [];
    if priorities != [] {
      var init, p := priorities[..|priorities| - 1], priorities[|priorities| - 1];
      SplitLast(priorities);
      PriorityAskedExact(m, contracts, machines, p, q);
      var before := PrioritiesInOrder(m, contracts, machines, init, q);
      PriorityPositionsPush(contracts, machines, init, p, q, before);
      PrioritiesAtPush(init, p, before, OpenMatches(m, init, q));
      assert OpenMatches(m, init, q) + [] == OpenMatches(m, init, q);
      positions := if PriorityAsked(contracts, machines, p, q) then before + [|init|] else before;
    }
  }

  ghost predicate FindingsAt(findings: seq<Finding>, positions: seq<nat>, out: seq<string>) {
    |out| == |positions| && forall i :: 0 <= i < |out| ==>
      positions[i] < |findings| && out[i] == findings[positions[i]].id
  }

  lemma FindingsAtPush(findings: seq<Finding>, f: Finding, positions: seq<nat>, out: seq<string>)
    requires FindingsAt(findings, positions, out)
    ensures FindingsAt(findings + [f], positions, out)
    ensures FindingsAt(findings + [f], positions + [|findings|], out + [f.id])
  {
    var more := findings + [f];
    assert more[|findings|] == f;
    assert forall n: nat :: n < |findings| ==> more[n] == findings[n];
  }

  /** and the findings. */
  lemma {:induction false} FindingsInOrder(m: Model, contracts: seq<Contract>, machines: seq<string>,
                                           findings: seq<Finding>, q: Pattern) returns (positions: seq<nat>)
    requires IndexOf(m, contracts, machines)
    ensures FindingPositions(contracts, findings, q, positions)
    ensures FindingsAt(findings, positions, FindingsMatched(m, findings, q))
  {
    positions := [];
    if findings != [] {
      var init, f := findings[..|findings| - 1], findings[|findings| - 1];
      SplitLast(findings);
      FindingAskedExact(m, contracts, machines, f, q);
      var before := FindingsInOrder(m, contracts, machines, init, q);
      FindingPositionsPush(contracts, init, f, q, before);
      FindingsAtPush(init, f, before, FindingsMatched(m, init, q));
      assert FindingsMatched(m, init, q) + [] == FindingsMatched(m, init, q);
      positions := if f.id != "" && FindingAsked(contracts, f, q) then before + [|init|] else before;
    }
  }

  // ----- Reading a pattern ------------------------------------------------------------------------

  /** The decimal digits '0' to '9', at least one. */
  predicate Numeral(d: string) {
    d != "" && forall c :: c in d ==> '0' <= c <= '9'
  }

  lemma LastIs(s: string, c: char, i: nat)
    requires i < |s| && s[i] == c && forall j :: i < j < |s| ==> s[j] != c
    ensures LastIndex(s, c) == i
  {
  }

  lemma ColonApart(pre: string, d: string, j: nat)
    requires Numeral(d) && |pre| < j < |pre| + 1 + |d|
    ensures (pre + (":" + d))[j] == d[j - |pre| - 1] && d[j - |pre| - 1] in d
  {
  }

  lemma LastColon(pre: string, d: string)
    requires Numeral(d)
    ensures LastIndex(pre + (":" + d), ':') == |pre| && (pre + (":" + d))[|pre| + 1..] == d
  {
    var s := pre + (":" + d);
    AfterColon(pre, d);
    forall j: nat | |pre| < j < |s| ensures s[j] != ':' { NumeralPart(pre, d, j); }
    LastIs(s, ':', |pre|);
  }

  lemma AfterColon(pre: string, d: string)
    ensures var s := pre + (":" + d); |s| == |pre| + 1 + |d| && s[|pre|] == ':' && s[|pre| + 1..] == d
  {
  }

  lemma NumeralPart(pre: string, d: string, j: nat)
    requires Numeral(d) && |pre| < j < |pre| + 1 + |d|
    ensures (pre + (":" + d))[j] != ':'
  {
    ColonApart(pre, d, j);
  }

  /** A tail is a colon and a numeral at the end. */
  lemma TailExact(s: string)
    ensures DigitTail(s) <==> exists pre, d :: Numeral(d) && s == pre + (":" + d)
  {
    if DigitTail(s) {
      var k := LastIndex(s, ':');
      assert s == s[..k] + (":" + s[k + 1..]);
    }
    if pre, d :| Numeral(d) && s == pre + (":" + d) {
      LastColon(pre, d);
    }
  }

  /** A text with a line number at its end is read as the text and the number. */
  lemma TailReads(s: string, line: nat)
    requires 0 < line <= MAX_INT
    ensures DigitTail(s + (":" + Digits(line))) && DropTail(s + (":" + Digits(line))) == s
    ensures TailLine(s + (":" + Digits(line))) == line
  {
    LastColon(s, Digits(line));
    DigitsRoundTrip(line);
    assert (s + (":" + Digits(line)))[..|s|] == s;
  }

  function WithLine(s: string, line: nat): string {
    if line == 0 then s else s + (":" + Digits(line))
  }

  lemma NoEdge(s: string, line: nat)
    requires 0 < line
    ensures !EdgeSpace(s + (":" + Digits(line)))
  {
    var d := Digits(line);
    assert d[|d| - 1] in d;
    assert (s + (":" + d))[|s| + |d|] == d[|d| - 1];
  }

  lemma LineKey(path: string, fn: string, line: nat)
    ensures WithLine(KeyOf(path, fn), line) ==
            if fn == "" then WithLine(path, line) else path + ("#" + WithLine(fn, line))
  {
    if fn != "" && line != 0 {
      AppendAssociative(path, "#" + fn, ":" + Digits(line));
      AppendAssociative("#", fn, ":" + Digits(line));
    }
  }

  lemma ColonPathHasNoHash(path: string, line: nat)
    requires '#' !in path
    ensures '#' !in WithLine(path, line)
  {
    if line != 0 {
      forall c | c in WithLine(path, line) ensures c != '#' { assert c in path || c == ':' || c in Digits(line); }
    }
  }

  /** What an operator types is read back: a path, a function if any, and a line if any. */
  lemma PatternReads(path: string, fn: string, line: nat)
    requires path != "" && '#' !in path && NormalizePath(path) == path && !DigitTail(path)
    requires !DigitTail(fn) && !EdgeSpace(fn) && line <= 9223372036854775807
    ensures ParsePattern(WithLine(KeyOf(path, fn), line)) == Some(Pattern(path, fn, line))
  {
    if line == 0 {
      KeyParsesIff(path, fn);
    } else {
      LineKey(path, fn, line);
      NormalizedHasNoEdges(path);
      NoEdge(KeyOf(path, fn), line);
      var text := WithLine(KeyOf(path, fn), line);
      assert text[0] == path[0];
      NoEdgeTrims(text);
      if fn == "" {
        ColonPathHasNoHash(path, line);
        KeyOfParts(WithLine(path, line), "");
        TailReads(path, line);
      } else {
        KeyOfParts(path, WithLine(fn, line));
        TailReads(fn, line);
      }
    }
  }

  /** What a pattern of a path, a function and a line comes to. */
  function Read(path: string, fn: string, line: nat): Option<Pattern> {
    if NormalizePath(path) == "" && fn == "" then None else Some(Pattern(NormalizePath(path), fn, line))
  }

  lemma HashParts(path: string, g: string)
    requires '#' !in path && (path == "" || !GoSpace(path[0])) && !EdgeSpace(g)
    ensures var text := path + ("#" + g); TrimSpace(text) == text && PathPart(text) == path && FnPart(text) == g
  {
    var text := path + ("#" + g);
    assert text[|path|] == '#';
    forall i | 0 <= i < |path| ensures text[i] != '#' { assert text[i] == path[i] && path[i] in path; }
    assert FirstIndex(text, '#') == |path|;
    assert text[|text| - 1] == if g == "" then '#' else g[|g| - 1];
    NoEdgeTrims(text);
  }

  /** A line at the end of the function is the pattern's, and the path keeps its own tail, */
  lemma FunctionLineReads(path: string, fn: string, line: nat)
    requires '#' !in path && (path == "" || !GoSpace(path[0])) && 0 < line <= 9223372036854775807
    ensures ParsePattern(path + ("#" + WithLine(fn, line))) == Read(path, fn, line)
  {
    NoEdge(fn, line);
    HashParts(path, WithLine(fn, line));
    TailReads(fn, line);
  }

  lemma PathTailReads(p: string, path: string, line: nat, fn: string)
    requires '#' !in p && (p == "" || !GoSpace(p[0])) && DropTail(p) == path && TailLine(p) == line
    requires !DigitTail(fn) && !EdgeSpace(fn)
    ensures ParsePattern(p + ("#" + fn)) == Read(path, fn, line)
  {
    var text := p + ("#" + fn);
    HashParts(p, fn);
    LinelessReads(text, p, fn);
  }

  lemma LinelessReads(text: string, p: string, fn: string)
    requires TrimSpace(text) == text && PathPart(text) == p && FnPart(text) == fn && !DigitTail(fn)
    ensures ParsePattern(text) == Read(DropTail(p), fn, TailLine(p))
  {
  }

  lemma LineStart(path: string, line: nat)
    requires path == "" || !GoSpace(path[0])
    ensures WithLine(path, line) == "" || !GoSpace(WithLine(path, line)[0])
  {
    if line != 0 {
      assert WithLine(path, line)[0] == if path == "" then ':' else path[0];
    }
  }

  /** and a line at the end of the path is the pattern's when the function gives none. */
  lemma PathLineReads(path: string, line: nat, fn: string)
    requires '#' !in path && (path == "" || !GoSpace(path[0])) && 0 < line <= 9223372036854775807
    requires !DigitTail(fn) && !EdgeSpace(fn)
    ensures ParsePattern(WithLine(path, line) + ("#" + fn)) == Read(path, fn, line)
  {
    ColonPathHasNoHash(path, line);
    LineStart(path, line);
    TailReads(path, line);
    PathTailReads(WithLine(path, line), path, line, fn);
  }

  lemma HugeTail(path: string, d: string)
    requires Numeral(d) && DigitsValue(d) > MAX_INT
    ensures DropTail(path + (":" + d)) == path && TailLine(path + (":" + d)) == 0
  {
    LastColon(path, d);
    assert (path + (":" + d))[..|path|] == path;
  }

  lemma TailEdges(path: string, d: string)
    requires '#' !in path && (path == "" || !GoSpace(path[0])) && Numeral(d)
    ensures var text := path + (":" + d); '#' !in text && !GoSpace(text[0]) && !EdgeSpace(text)
  {
    var text := path + (":" + d);
    assert d[|d| - 1] in d && text[|text| - 1] == d[|d| - 1];
    assert text[0] == if path == "" then ':' else path[0];
    forall c | c in text ensures c != '#' { assert c in path || c == ':' || c in d; }
  }

  lemma PlainParts(text: string)
    requires text != "" && '#' !in text && !GoSpace(text[0]) && !EdgeSpace(text)
    ensures TrimSpace(text) == text && PathPart(text) == text && FnPart(text) == ""
  {
    NoEdgeTrims(text);
    assert FirstIndex(text, '#') == |text|;
    assert text[..|text|] == text;
  }

  /** A line number beyond 64 bits reads as none. */
  lemma HugeLineReads(path: string, d: string)
    requires '#' !in path && (path == "" || !GoSpace(path[0]))
    requires Numeral(d) && DigitsValue(d) > 9223372036854775807
    ensures ParsePattern(path + (":" + d)) == Read(path, "", 0)
  {
    HugeTail(path, d);
    TailEdges(path, d);
    PlainParts(path + (":" + d));
  }

  /** So a plain path pattern answers exactly what lies on a path it reaches. */
  lemma PathQuery(m: Model, contracts: seq<Contract>, machines: seq<string>, arts: Artifacts, p: string, out: Matches)
    requires IndexOf(m, contracts, machines) && Answers(m, arts, p, out)
    requires p != "" && '#' !in p && NormalizePath(p) == p && !DigitTail(p)
    ensures AnswersAsked(contracts, machines, arts, Pattern(p, "", 0), out)
  {
    PatternReads(p, "", 0);
    QueryExact(m, contracts, machines, arts, p, out);
  }

  /** A base name does not reach a longer one that ends in it. */
  lemma BaseNamesApart(p: string, t: string)
    requires p != "" && p != t && '/' !in p && '/' !in t
    ensures !Reaches(p, t)
  {
    forall pre: string ensures t != pre + ("/" + p) && p != pre + ("/" + t) {
      assert (pre + ("/" + p))[|pre|] == '/' && (pre + ("/" + t))[|pre|] == '/';
    }
  }

  /** A blank pattern answers nothing. */
  lemma EmptyQuery(m: Model, arts: Artifacts, pattern: string, out: Matches)
    requires Answers(m, arts, pattern, out) && forall c :: c in pattern ==> White(c)
    ensures out == Matches([], [], [])
  {
    WhiteTrims(pattern);
    BlankPattern(pattern);
  }

  lemma BlankPattern(pattern: string)
    requires TrimSpace(pattern) == ""
    ensures ParsePattern(pattern) == None
  {
    assert PathPart("") == "" && FnPart("") == "";
    NormalizePlain("");
  }

  lemma {:induction false} WhiteTrims(s: string)
    requires forall c :: c in s ==> White(c)
    ensures TrimLeft(s) == ""
  {
    if s != "" {
      assert s[0] in s;
      WhiteTrims(s[1..]);
    }
  }
}
