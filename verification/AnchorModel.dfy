/** The model index of the code-anchor join and its resolution rules. */
module AnchorModel {
  import opened Ordering
  import opened Text

  // ----- Text -------------------------------------------------------------------

  predicate GoSpace(c: char) {
    c == ' ' || ('\t' <= c <= '\r') || c == '\U{85}' || c == '\U{A0}'
  }

  function TrimLeft(s: string): string {
    if s != "" && GoSpace(s[0]) then TrimLeft(s[1..]) else s
  }

  function TrimRight(s: string): string {
    if s != "" && GoSpace(s[|s| - 1]) then TrimRight(s[..|s| - 1]) else s
  }

  function TrimSpace(s: string): string {
    TrimRight(TrimLeft(s))
  }

  function Slashes(s: string): (r: string)
    ensures |r| == |s|
    ensures forall i :: 0 <= i < |s| ==> r[i] == if s[i] == '\\' then '/' else s[i]
  {
    if s == "" then "" else [if s[0] == '\\' then '/' else s[0]] + Slashes(s[1..])
  }

  function DropDotSlash(s: string): string {
    if |s| >= 2 && s[0] == '.' && s[1] == '/' then DropDotSlash(s[2..]) else s
  }

  /** `normalizePath`: every leading "./" goes, but only one leading "/". */
  function NormalizePath(raw: string): string {
    var p := DropDotSlash(TrimSpace(Slashes(raw)));
    if p != "" && p[0] == '/' then p[1..] else p
  }

  // ----- The model ------------------------------------------------------------------

  datatype Contract = Contract(name: string, path: string)

  /** `namePaths` lists, per contract name, the distinct paths that carry it; `lifecycle`
      holds the state machine names. */
  datatype Model = Model(namePaths: map<string, seq<string>>, paths: seq<string>, pathSet: set<string>,
                         lifecycle: set<string>)

  ghost predicate ContractAt(contracts: seq<Contract>, name: string, path: string) {
    name != "" && path != "" && exists c :: c in contracts && c.name == name && NormalizePath(c.path) == path
  }

  ghost predicate Carries(m: Model, name: string, path: string) {
    name in m.namePaths && path in m.namePaths[name]
  }

  ghost predicate WellFormed(m: Model) {
    && SetOf(m.paths) == m.pathSet
    && "" !in m.pathSet
    && (forall name :: name in m.namePaths ==> Distinct(m.namePaths[name]) && SetOf(m.namePaths[name]) <= m.pathSet)
  }

  /** The index holds exactly the contracts that have a name and a path, by normalized path. */
  ghost predicate IndexOf(m: Model, contracts: seq<Contract>, machines: seq<string>) {
    && WellFormed(m)
    && m.paths == SetKeys(m.pathSet)
    && (forall name :: name in m.namePaths ==> m.namePaths[name] != [])
    && (forall name, path :: Carries(m, name, path) <==> ContractAt(contracts, name, path))
    && (forall path :: path in m.pathSet <==> exists name :: ContractAt(contracts, name, path))
    && (forall s :: s in m.lifecycle <==> s != "" && s in machines)
  }

  // ----- Citations ---------------------------------------------------------------------

  datatype Citation = Citation(path: string, ambiguous: bool)

  function PathCitations(paths: seq<string>, ambiguous: bool): (r: seq<Citation>)
    ensures forall c :: c in r <==> c.path in paths && c.ambiguous == ambiguous
  {
    if paths == [] then []
    else
      assert paths == [paths[0]] + paths[1..];
      [Citation(paths[0], ambiguous)] + PathCitations(paths[1..], ambiguous)
  }

  /** The collision rule: every path carrying the name, flagged when there are several. */
  function NameCitations(m: Model, name: string): seq<Citation> {
    if name in m.namePaths then PathCitations(m.namePaths[name], |m.namePaths[name]| > 1) else []
  }

  predicate PathUnderDir(path: string, dir: string) {
    var i := LastIndex(path, '/');
    i >= 0 && (path[..i] == dir || HasSuffix(path[..i], "/" + dir))
  }

  function PathsUnderDir(paths: seq<string>, dir: string): (r: seq<string>)
    ensures forall p :: p in r <==> p in paths && PathUnderDir(p, dir)
  {
    if paths == [] then []
    else
      assert paths == [paths[0]] + paths[1..];
      (if PathUnderDir(paths[0], dir) then [paths[0]] else []) + PathsUnderDir(paths[1..], dir)
  }

  function ComponentCitations(m: Model, component: string): seq<Citation> {
    if component == "" then []
    else if component in m.namePaths then NameCitations(m, component)
    else if component !in m.lifecycle then []
    else
      var i := LastIndex(component, '/');
      if i <= 0 then [] else PathCitations(PathsUnderDir(m.paths, component[..i]), false)
  }

  lemma SeveralPaths(ps: seq<string>, path: string)
    requires Distinct(ps) && path in ps
    ensures |ps| > 1 <==> exists p :: p in ps && p != path
  {
    var i :| 0 <= i < |ps| && ps[i] == path;
    if |ps| > 1 {
      var j := if i == 0 then 1 else 0;
      assert ps[j] in ps && ps[j] != path;
    }
  }

  /** A name is an ambiguous citation exactly when the model carries it on two different
      paths. */
  lemma NameCitationsExact(m: Model, name: string, c: Citation)
    requires WellFormed(m)
    ensures c in NameCitations(m, name) <==>
            Carries(m, name, c.path) && (c.ambiguous <==> exists p :: Carries(m, name, p) && p != c.path)
  {
    if Carries(m, name, c.path) {
      SeveralPaths(m.namePaths[name], c.path);
      forall p ensures Carries(m, name, p) <==> p in m.namePaths[name] {}
    }
  }

  /** Every cited path is a model path. */
  lemma CitedInModel(m: Model, name: string, c: Citation)
    requires WellFormed(m)
    requires c in NameCitations(m, name) || c in ComponentCitations(m, name)
    ensures c.path in m.pathSet
  {
    forall p | p in m.paths ensures p in m.pathSet { assert p in SetOf(m.paths); }
    if name in m.namePaths {
      assert c.path in SetOf(m.namePaths[name]);
    }
  }

  // ----- Finding paths --------------------------------------------------------------------

  /** The suffix rule: the exact model path, or else the longest model path the file ends
      with at a segment boundary. */
  ghost predicate ResolvesTo(m: Model, raw: string, p: string) {
    var norm := NormalizePath(raw);
    && norm != ""
    && p in m.pathSet
    && if norm in m.pathSet then p == norm
       else HasSuffix(norm, "/" + p) && forall q :: q in m.pathSet && HasSuffix(norm, "/" + q) ==> |q| <= |p|
  }

  /** A file resolves to at most one path. */
  lemma ResolvesOnce(m: Model, raw: string, p: string, q: string)
    requires ResolvesTo(m, raw, p) && ResolvesTo(m, raw, q)
    ensures p == q
  {
    var norm := NormalizePath(raw);
    if norm !in m.pathSet {
      assert |p| == |q|;
      assert ("/" + p)[1..] == p && ("/" + q)[1..] == q;
    }
  }

  method ResolveFilePath(m: Model, raw: string) returns (best: string)
    requires WellFormed(m)
    ensures best != "" ==> ResolvesTo(m, raw, best)
    ensures best == "" ==> forall p :: !ResolvesTo(m, raw, p)
  {
    var norm := NormalizePath(raw);
    if norm == "" {
      return "";
    }
    if norm in m.pathSet {
      return norm;
    }
    best := "";
    for i := 0 to |m.paths|
      invariant best == "" || (best in m.pathSet && HasSuffix(norm, "/" + best))
      invariant forall q :: q in m.paths[..i] && HasSuffix(norm, "/" + q) ==> |q| <= |best|
    {
      var p := m.paths[i];
      assert p in SetOf(m.paths);
      assert m.paths[..i + 1] == m.paths[..i] + [p];
      if HasSuffix(norm, "/" + p) && |p| > |best| {
        best := p;
      }
    }
    assert m.paths[..|m.paths|] == m.paths;
    forall q | q in m.pathSet ensures q in m.paths { assert q in SetOf(m.paths); }
  }
}
