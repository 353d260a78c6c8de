/** `Open`, `Index` and `Query`: the class that holds the model index and the three stores,
    and the pattern search over them. */
module AnchorQuery {
  import opened Ordering
  import opened Text
  import opened AnchorModel
  import opened Convergence

  // ----- Patterns ------------------------------------------------------------------------

  datatype Pattern = Pattern(path: string, fn: string, line: nat)

  const MAX_INT: nat := 0x7fff_ffff_ffff_ffff

  /** `strconv.Atoi` on digits, an out-of-range number reading as 0. */
  function Atoi(s: string): nat {
    var v := DigitsValue(s);
    if v > MAX_INT then 0 else v
  }

  /** The text ends in ":<digits>". */
  predicate DigitTail(s: string) {
    var i := LastIndex(s, ':');
    i >= 0 && IsDigits(s[i + 1..])
  }

  function TailLine(s: string): nat {
    if DigitTail(s) then Atoi(s[LastIndex(s, ':') + 1..]) else 0
  }

  function DropTail(s: string): (r: string)
    ensures DigitTail(s) ==> |r| < |s|
    ensures !DigitTail(s) ==> r == s
  {
    if DigitTail(s) then s[..LastIndex(s, ':')] else s
  }

  /** `parsePattern`: "<path>[#<function>][:<line>]". The line may trail either part; the
      path's own tail is looked at only when the function gave no line. */
  function ParsePattern(raw: string): Option<Pattern> {
    var text := TrimSpace(raw);
    var path, fn := PathPart(text), FnPart(text);
    var fnLine := TailLine(fn);
    var line := if fnLine == 0 then TailLine(path) else fnLine;
    var norm := NormalizePath(if fnLine == 0 then DropTail(path) else path);
    if norm == "" && DropTail(fn) == "" then None else Some(Pattern(norm, DropTail(fn), line))
  }

  predicate PathMatches(patternPath: string, target: string) {
    || patternPath == ""
    || patternPath == target
    || HasSuffix(patternPath, "/" + target)
    || HasSuffix(target, "/" + patternPath)
  }

  // ----- What a pattern reaches --------------------------------------------------------------

  ghost predicate RowMatched(m: Model, row: Row, q: Pattern) {
    exists c :: c in RowCitations(m, row) && SiteMatched(c, q)
  }

  predicate SiteMatched(c: RowCite, q: Pattern) {
    PathMatches(q.path, c.path) && (q.fn == "" || c.fn == q.fn) && (q.line == 0 || c.line == q.line)
  }

  method RowMatches(m: Model, row: Row, q: Pattern) returns (matched: bool)
    ensures matched <==> RowMatched(m, row, q)
  {
    var sites := RowCitations(m, row);
    for i := 0 to |sites|
      invariant forall c :: c in sites[..i] ==> !SiteMatched(c, q)
    {
      assert sites[..i + 1] == sites[..i] + [sites[i]];
      if SiteMatched(sites[i], q) {
        return true;
      }
    }
    assert sites[..|sites|] == sites;
    return false;
  }

  /** The line lies between two of the listed lines. */
  ghost predicate Spans(lines: seq<int>, line: int) {
    exists lo, hi :: lo in lines && hi in lines && lo <= line <= hi
  }

  method LineInRange(lines: seq<int>, line: int) returns (inside: bool)
    ensures inside <==> Spans(lines, line)
  {
    if |lines| == 0 {
      return false;
    }
    var lo, hi := lines[0], lines[0];
    for i := 1 to |lines|
      invariant lo in lines[..i] && hi in lines[..i]
      invariant forall l :: l in lines[..i] ==> lo <= l <= hi
    {
      assert lines[..i + 1] == lines[..i] + [lines[i]];
      if lines[i] < lo { lo := lines[i]; }
      if lines[i] > hi { hi := lines[i]; }
    }
    assert lines[..|lines|] == lines;
    return lo <= line <= hi;
  }

  ghost predicate AffectedMatched(m: Model, a: Affected, q: Pattern) {
    && RawOf(a) != ""
    && (q.fn == "" || a.fn == q.fn)
    && (q.line == 0 || Spans(a.lines, q.line))
    && (PathMatches(q.path, NormalizePath(RawOf(a)))
        || exists p :: ResolvesTo(m, RawOf(a), p) && PathMatches(q.path, p))
  }

  ghost predicate FindingMatched(m: Model, f: Finding, q: Pattern) {
    exists a :: a in f.affected && AffectedMatched(m, a, q)
  }

  method EntryMatches(m: Model, a: Affected, q: Pattern) returns (matched: bool)
    requires WellFormed(m)
    ensures matched <==> AffectedMatched(m, a, q)
  {
    if RawOf(a) == "" || (q.fn != "" && a.fn != q.fn) {
      return false;
    }
    var inside := LineInRange(a.lines, q.line);
    if q.line != 0 && !inside {
      return false;
    }
    if PathMatches(q.path, NormalizePath(RawOf(a))) {
      return true;
    }
    var p := ResolveFilePath(m, RawOf(a));
    forall r | ResolvesTo(m, RawOf(a), r) ensures r == p { ResolvesOnce(m, RawOf(a), r, p); }
    return p != "" && PathMatches(q.path, p);
  }

  method FindingMatches(m: Model, f: Finding, q: Pattern) returns (matched: bool)
    requires WellFormed(m)
    ensures matched <==> FindingMatched(m, f, q)
  {
    for i := 0 to |f.affected|
      invariant forall a :: a in f.affected[..i] ==> !AffectedMatched(m, a, q)
    {
      assert f.affected[..i + 1] == f.affected[..i] + [f.affected[i]];
      var entry := EntryMatches(m, f.affected[i], q);
      if entry {
        return true;
      }
    }
    assert f.affected[..|f.affected|] == f.affected;
    return false;
  }

  const UNDISPOSITIONED := "undispositioned"

  predicate Claims(p: Priority, rowId: string) {
    p.probeRow == Some(rowId)
  }

  /** `status` is that of the first priority that claims the row; no claim, or an empty
      status, reads as undispositioned. */
  ghost predicate DispositionIs(priorities: seq<Priority>, rowId: string, status: string) {
    || (status == UNDISPOSITIONED && forall p :: p in priorities ==> !Claims(p, rowId))
    || exists i :: 0 <= i < |priorities| && Claims(priorities[i], rowId)
                   && (forall j :: 0 <= j < i ==> !Claims(priorities[j], rowId))
                   && status == if priorities[i].status != "" then priorities[i].status else UNDISPOSITIONED
  }

  method RowDisposition(priorities: seq<Priority>, rowId: string) returns (status: string)
    ensures DispositionIs(priorities, rowId, status)
  {
    for i := 0 to |priorities|
      invariant forall j :: 0 <= j < i ==> !Claims(priorities[j], rowId)
    {
      if !Claims(priorities[i], rowId) {
        continue;
      }
      return if priorities[i].status != "" then priorities[i].status else UNDISPOSITIONED;
    }
    return UNDISPOSITIONED;
  }

  predicate PriorityOpen(p: Priority) {
    p.status == "" || p.status == "open"
  }

  ghost function PathsOf(cites: seq<Citation>): set<string> {
    set c | c in cites :: c.path
  }

  ghost function TargetsOf(m: Model, components: seq<string>): set<string> {
    set component, c | component in components && c in ComponentCitations(m, component) :: c.path
  }

  lemma PathsPush(cites: seq<Citation>, c: Citation)
    ensures PathsOf(cites + [c]) == PathsOf(cites) + {c.path}
  {
  }

  method ComponentTargets(m: Model, component: string, before: seq<string>) returns (out: seq<string>)
    requires WellFormed(m) && Distinct(before)
    ensures Distinct(out) && SetOf(out) == SetOf(before) + PathsOf(ComponentCitations(m, component))
  {
    out := before;
    var cites := ComponentCitations(m, component);
    for i := 0 to |cites|
      invariant Distinct(out) && SetOf(out) == SetOf(before) + PathsOf(cites[..i])
    {
      assert cites[..i + 1] == cites[..i] + [cites[i]];
      CitedInModel(m, component, cites[i]);
      PathsPush(cites[..i], cites[i]);
      out := AppendUnique(out, cites[i].path);
    }
    assert cites[..|cites|] == cites;
  }

  /** `PriorityTargets`: the model paths of the components, each once, in order. */
  method PriorityTargets(m: Model, p: Priority) returns (out: seq<string>)
    requires WellFormed(m)
    ensures out == SetKeys(TargetsOf(m, p.components))
  {
    out := [];
    for i := 0 to |p.components|
      invariant Distinct(out) && SetOf(out) == TargetsOf(m, p.components[..i])
    {
      assert p.components[..i + 1] == p.components[..i] + [p.components[i]];
      TargetsPush(m, p.components[..i], p.components[i]);
      out := ComponentTargets(m, p.components[i], out);
    }
    assert p.components[..|p.components|] == p.components;
    SortedIds(out);
    out := SortStrings(out);
  }

  lemma TargetsPush(m: Model, components: seq<string>, component: string)
    ensures TargetsOf(m, components + [component]) ==
            TargetsOf(m, components) + PathsOf(ComponentCitations(m, component))
  {
  }

  ghost predicate PriorityMatched(m: Model, p: Priority, q: Pattern) {
    PriorityOpen(p) && q.path != "" && exists t :: t in TargetsOf(m, p.components) && PathMatches(q.path, t)
  }

  method PriorityMatches(m: Model, p: Priority, q: Pattern) returns (matched: bool)
    requires WellFormed(m)
    ensures matched <==> PriorityMatched(m, p, q)
  {
    if !PriorityOpen(p) || q.path == "" {
      return false;
    }
    var targets := PriorityTargets(m, p);
    forall t ensures t in targets <==> t in TargetsOf(m, p.components) { assert t in SetOf(targets) <==> t in targets; }
    for i := 0 to |targets|
      invariant forall t :: t in targets[..i] ==> !PathMatches(q.path, t)
    {
      assert targets[..i + 1] == targets[..i] + [targets[i]];
      if PathMatches(q.path, targets[i]) {
        return true;
      }
    }
    assert targets[..|targets|] == targets;
    return false;
  }

  // ----- The answer ----------------------------------------------------------------------------

  datatype RowMatch = RowMatch(rowId: string, tier: int, disposition: string, dispositioned: bool)

  datatype Matches = Matches(rows: seq<RowMatch>, priorities: seq<string>, findings: seq<string>)

  const DISPOSITIONED: seq<string> := ["answered", "not-applicable", "deprioritized"]

  ghost predicate RowAnswer(row: Row, priorities: seq<Priority>, r: RowMatch) {
    && r.rowId == row.id && r.tier == row.tier
    && DispositionIs(priorities, row.id, r.disposition)
    && (r.dispositioned <==> r.disposition in DISPOSITIONED)
  }

  /** The answers are those of the reached rows, in row order. */
  ghost predicate RowsAnswered(m: Model, rows: seq<Row>, priorities: seq<Priority>, q: Pattern, out: seq<RowMatch>)
    decreases |rows|
  {
    if rows == [] then out == []
    else
      var n := |rows| - 1;
      if rows[n].id == "" || !RowMatched(m, rows[n], q) then RowsAnswered(m, rows[..n], priorities, q, out)
      else out != [] && RowAnswer(rows[n], priorities, out[|out| - 1])
           && RowsAnswered(m, rows[..n], priorities, q, out[..|out| - 1])
  }

  ghost function OpenMatches(m: Model, priorities: seq<Priority>, q: Pattern): seq<string> {
    if priorities == [] then []
    else
      var n := |priorities| - 1;
      OpenMatches(m, priorities[..n], q) + if PriorityMatched(m, priorities[n], q) then [priorities[n].id] else []
  }

  ghost function FindingsMatched(m: Model, findings: seq<Finding>, q: Pattern): seq<string> {
    if findings == [] then []
    else
      var n := |findings| - 1;
      FindingsMatched(m, findings[..n], q)
      + if findings[n].id != "" && FindingMatched(m, findings[n], q) then [findings[n].id] else []
  }

  /** What `Query` answers for a pattern. */
  ghost predicate Answers(m: Model, arts: Artifacts, pattern: string, out: Matches) {
    match ParsePattern(pattern)
    case None => out == Matches([], [], [])
    case Some(q) =>
      && RowsAnswered(m, arts.rows, arts.priorities, q, out.rows)
      && out.priorities == OpenMatches(m, arts.priorities, q)
      && out.findings == FindingsMatched(m, arts.findings, q)
  }

  method QueryRows(m: Model, rows: seq<Row>, priorities: seq<Priority>, q: Pattern) returns (out: seq<RowMatch>)
    ensures RowsAnswered(m, rows, priorities, q, out)
  {
    out := [];
    for i := 0 to |rows|
      invariant RowsAnswered(m, rows[..i], priorities, q, out)
    {
      assert rows[..i + 1][..i] == rows[..i];
      var matched := RowMatches(m, rows[i], q);
      if rows[i].id == "" || !matched {
        continue;
      }
      var status := RowDisposition(priorities, rows[i].id);
      var answer := RowMatch(rows[i].id, rows[i].tier, status, status in DISPOSITIONED);
      assert (out + [answer])[..|out|] == out;
      out := out + [answer];
    }
    assert rows[..|rows|] == rows;
  }

  method QueryPriorities(m: Model, priorities: seq<Priority>, q: Pattern) returns (out: seq<string>)
    requires WellFormed(m)
    ensures out == OpenMatches(m, priorities, q)
  {
    out := [];
    for i := 0 to |priorities|
      invariant out == OpenMatches(m, priorities[..i], q)
    {
      assert priorities[..i + 1][..i] == priorities[..i];
      var matched := PriorityMatches(m, priorities[i], q);
      if matched {
        out := out + [priorities[i].id];
      }
    }
    assert priorities[..|priorities|] == priorities;
  }

  method QueryFindings(m: Model, findings: seq<Finding>, q: Pattern) returns (out: seq<string>)
    requires WellFormed(m)
    ensures out == FindingsMatched(m, findings, q)
  {
    out := [];
    for i := 0 to |findings|
      invariant out == FindingsMatched(m, findings[..i], q)
    {
      assert findings[..i + 1][..i] == findings[..i];
      var matched := FindingMatches(m, findings[i], q);
      if findings[i].id != "" && matched {
        out := out + [findings[i].id];
      }
    }
    assert findings[..|findings|] == findings;
  }

  // ----- The store -------------------------------------------------------------------------------

  /** The paths a name carries, given the contracts read so far. */
  ghost predicate NamesSoFar(namePaths: map<string, seq<string>>, pathSet: set<string>, contracts: seq<Contract>) {
    && (forall name :: name in namePaths ==> Distinct(namePaths[name]) && namePaths[name] != [])
    && (forall name, path :: name in namePaths && path in namePaths[name] <==> ContractAt(contracts, name, path))
    && (forall path :: path in pathSet <==> exists name :: ContractAt(contracts, name, path))
  }

  lemma ContractPush(contracts: seq<Contract>, c: Contract, name: string, path: string)
    ensures ContractAt(contracts + [c], name, path) <==>
            ContractAt(contracts, name, path)
              || (name == c.name && path == NormalizePath(c.path) && name != "" && path != "")
  {
    assert forall d :: d in contracts + [c] <==> d in contracts || d == c;
  }

  method IndexContracts(contracts: seq<Contract>) returns (namePaths: map<string, seq<string>>, paths: seq<string>)
    ensures Distinct(paths) && NamesSoFar(namePaths, SetOf(paths), contracts)
  {
    namePaths, paths := map[], [];
    for i := 0 to |contracts|
      invariant Distinct(paths) && NamesSoFar(namePaths, SetOf(paths), contracts[..i])
    {
      assert contracts[..i + 1] == contracts[..i] + [contracts[i]];
      var name, path := contracts[i].name, NormalizePath(contracts[i].path);
      forall n, p { ContractPush(contracts[..i], contracts[i], n, p); }
      if name == "" || path == "" {
        continue;
      }
      paths := AppendUnique(paths, path);
      var before := if name in namePaths then namePaths[name] else [];
      var after := AppendUnique(before, path);
      forall p
        ensures p in after <==> p in before || p == path
      {
        assert p in SetOf(after) <==> p in SetOf(before) + {path};
      }
      namePaths := namePaths[name := after];
    }
    assert contracts[..|contracts|] == contracts;
  }

  method IndexMachines(machines: seq<string>) returns (lifecycle: set<string>)
    ensures forall s :: s in lifecycle <==> s != "" && s in machines
  {
    lifecycle := {};
    for i := 0 to |machines|
      invariant forall s :: s in lifecycle <==> s != "" && s in machines[..i]
    {
      assert machines[..i + 1] == machines[..i] + [machines[i]];
      if machines[i] != "" {
        lifecycle := lifecycle + {machines[i]};
      }
    }
    assert machines[..|machines|] == machines;
  }

  method BuildModel(contracts: seq<Contract>, machines: seq<string>) returns (m: Model)
    ensures IndexOf(m, contracts, machines)
  {
    var namePaths, paths := IndexContracts(contracts);
    SortedIds(paths);
    var sorted := SortStrings(paths);
    var lifecycle := IndexMachines(machines);
    m := Model(namePaths, sorted, SetOf(paths), lifecycle);
    forall name | name in namePaths ensures SetOf(namePaths[name]) <= m.pathSet {
      forall p | p in namePaths[name] ensures p in m.pathSet { assert ContractAt(contracts, name, p); }
    }
  }

  class AnchorStore {
    var model: Model
    var rows: seq<Row>
    var priorities: seq<Priority>
    var findings: seq<Finding>

    ghost function Artifacts(): Artifacts
      reads this
    {
      Convergence.Artifacts.Artifacts(rows, priorities, findings)
    }

    constructor Open(contracts: seq<Contract>, machines: seq<string>)
      ensures IndexOf(model, contracts, machines)
      ensures rows == [] && priorities == [] && findings == []
    {
      var m := BuildModel(contracts, machines);
      model := m;
      rows, priorities, findings := [], [], [];
    }

    method Index(rows: seq<Row>, priorities: seq<Priority>, findings: seq<Finding>)
      modifies this`rows, this`priorities, this`findings
      ensures this.rows == rows && this.priorities == priorities && this.findings == findings
    {
      this.rows, this.priorities, this.findings := rows, priorities, findings;
    }

    method Query(pattern: string) returns (out: Matches)
      requires WellFormed(model)
      ensures Answers(model, Artifacts(), pattern, out)
    {
      var parsed := ParsePattern(pattern);
      if parsed.None? {
        return Matches([], [], []);
      }
      var matchedRows := QueryRows(model, rows, priorities, parsed.value);
      var matchedPriorities := QueryPriorities(model, priorities, parsed.value);
      var matchedFindings := QueryFindings(model, findings, parsed.value);
      out := Matches(matchedRows, matchedPriorities, matchedFindings);
    }

    /** `Convergences`, over whichever rows, priorities and findings the caller passes. */
    method Convergences(rows: seq<Row>, priorities: seq<Priority>, findings: seq<Finding>) returns (out: seq<Anchor>)
      requires WellFormed(model)
      ensures Reported(model, Convergence.Artifacts.Artifacts(rows, priorities, findings), out)
    {
      out := Convergence.Convergences(model, rows, priorities, findings);
    }
  }
}
