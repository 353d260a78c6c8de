/** What the code-anchor join returns, said of the contracts, the machine names and the three
    stores alone. */
module AnchorMeaning {
  import opened Ordering
  import opened Text
  import opened AnchorModel
  import opened Convergence

  // ----- Texts ------------------------------------------------------------------------------

  ghost predicate EndsWith(s: string, t: string) {
    exists pre :: s == pre + t
  }

  /** The text is `a`, a slash, and a rest without slashes. */
  predicate Cuts(s: string, a: string, b: string) {
    s == a + ("/" + b) && '/' !in b
  }

  lemma CutsExact(s: string, a: string, b: string)
    ensures Cuts(s, a, b) <==> LastIndex(s, '/') == |a| && a <= s && b == s[|a| + 1..]
  {
    var i := LastIndex(s, '/');
    if Cuts(s, a, b) {
      assert s[|a|] == '/' && s[|a| + 1..] == b;
      forall j | |a| < j < |s| ensures s[j] != '/' { assert s[j] == b[j - |a| - 1]; }
    }
    if i == |a| && a <= s && b == s[|a| + 1..] {
      assert s == a + ("/" + b);
      forall j | 0 <= j < |b| ensures b[j] != '/' { assert s[|a| + 1 + j] == b[j]; }
    }
  }

  // ----- The index --------------------------------------------------------------------------

  /** A contract of that name has that path. */
  ghost predicate NamedAt(contracts: seq<Contract>, name: string, path: string) {
    name != "" && path != "" && exists c :: c in contracts && c.name == name && NormalizePath(c.path) == path
  }

  ghost predicate ModelPath(contracts: seq<Contract>, path: string) {
    exists name :: NamedAt(contracts, name, path)
  }

  /** The name has another path as well. */
  ghost predicate Shared(contracts: seq<Contract>, name: string, path: string) {
    NamedAt(contracts, name, path) && exists p :: NamedAt(contracts, name, p) && p != path
  }

  lemma IndexMeans(m: Model, contracts: seq<Contract>, machines: seq<string>)
    requires IndexOf(m, contracts, machines)
    ensures forall name, path :: Carries(m, name, path) <==> NamedAt(contracts, name, path)
    ensures forall path :: path in m.pathSet <==> ModelPath(contracts, path)
    ensures forall s :: s in m.lifecycle <==> s != "" && s in machines
  {
    forall name, path ensures Carries(m, name, path) <==> NamedAt(contracts, name, path) {
      assert ContractAt(contracts, name, path) <==> NamedAt(contracts, name, path);
    }
    forall path ensures path in m.pathSet <==> ModelPath(contracts, path) {
      assert forall name :: ContractAt(contracts, name, path) <==> NamedAt(contracts, name, path);
    }
  }

  // ----- What a component cites ------------------------------------------------------------------

  /** The component is a machine in a directory, and the path lies in a directory of that name. */
  ghost predicate InMachineDir(component: string, path: string) {
    exists dir, base, parent, file ::
      Cuts(component, dir, base) && dir != "" && Cuts(path, parent, file)
        && (parent == dir || EndsWith(parent, "/" + dir))
  }

  ghost predicate IsName(contracts: seq<Contract>, component: string) {
    exists p :: NamedAt(contracts, component, p)
  }

  /** The component leads to the path: as a contract's name, or as the id of a machine when it is no
      contract's name. */
  ghost predicate Leads(contracts: seq<Contract>, machines: seq<string>, component: string, path: string) {
    if IsName(contracts, component) then NamedAt(contracts, component, path)
    else component != "" && component in machines && ModelPath(contracts, path) && InMachineDir(component, path)
  }

  lemma UnderDirExact(path: string, dir: string)
    ensures PathUnderDir(path, dir) <==>
            exists parent, file :: Cuts(path, parent, file) && (parent == dir || EndsWith(parent, "/" + dir))
  {
    var i := LastIndex(path, '/');
    if i >= 0 {
      CutsExact(path, path[..i], path[i + 1..]);
      SuffixExact(path[..i], "/" + dir);
    }
    if parent, file :| Cuts(path, parent, file) && (parent == dir || EndsWith(parent, "/" + dir)) {
      CutsExact(path, parent, file);
      SuffixExact(parent, "/" + dir);
      assert path[..i] == parent;
    }
  }

  lemma MachineDirExact(component: string, path: string)
    ensures InMachineDir(component, path) <==>
            LastIndex(component, '/') > 0 && PathUnderDir(path, component[..LastIndex(component, '/')])
  {
    var i := LastIndex(component, '/');
    if i > 0 {
      CutsExact(component, component[..i], component[i + 1..]);
      UnderDirExact(path, component[..i]);
    }
    if dir, base, parent, file :| Cuts(component, dir, base) && dir != ""
                                  && Cuts(path, parent, file) && (parent == dir || EndsWith(parent, "/" + dir)) {
      CutsExact(component, dir, base);
      assert component[..i] == dir;
    }
  }

  lemma PathsListed(m: Model, p: string)
    requires WellFormed(m)
    ensures p in m.paths <==> p in m.pathSet
  {
    assert p in m.paths <==> p in SetOf(m.paths);
  }

  lemma NameKnown(m: Model, contracts: seq<Contract>, machines: seq<string>, name: string, c: Citation)
    requires IndexOf(m, contracts, machines)
    ensures c in NameCitations(m, name) <==>
            NamedAt(contracts, name, c.path) && (c.ambiguous <==> Shared(contracts, name, c.path))
  {
    IndexMeans(m, contracts, machines);
    NameCitationsExact(m, name, c);
  }

  lemma DirCited(m: Model, contracts: seq<Contract>, machines: seq<string>, component: string, c: Citation)
    requires IndexOf(m, contracts, machines) && component !in m.namePaths
    ensures c in ComponentCitations(m, component) <==>
            component != "" && component in machines && ModelPath(contracts, c.path) && InMachineDir(component, c.path)
            && !c.ambiguous
  {
    IndexMeans(m, contracts, machines);
    MachineDirExact(component, c.path);
    PathsListed(m, c.path);
  }

  /** The index lists the names of contracts, and no other. */
  lemma KnownName(m: Model, contracts: seq<Contract>, machines: seq<string>, name: string)
    requires IndexOf(m, contracts, machines)
    ensures name in m.namePaths <==> IsName(contracts, name)
  {
    IndexMeans(m, contracts, machines);
    if name in m.namePaths {
      assert Carries(m, name, m.namePaths[name][0]);
    }
  }

  /** A component cites exactly the paths it leads to, ambiguously when it is a name with several. */
  lemma ComponentExact(m: Model, contracts: seq<Contract>, machines: seq<string>, component: string, c: Citation)
    requires IndexOf(m, contracts, machines)
    ensures c in ComponentCitations(m, component) <==>
            Leads(contracts, machines, component, c.path) && (c.ambiguous <==> Shared(contracts, component, c.path))
  {
    KnownName(m, contracts, machines, component);
    if component in m.namePaths {
      NameKnown(m, contracts, machines, component, c);
      NameNotEmpty(contracts, component);
    } else {
      DirCited(m, contracts, machines, component, c);
    }
  }

  lemma NameNotEmpty(contracts: seq<Contract>, name: string)
    requires IsName(contracts, name)
    ensures name != ""
  {
  }

  // ----- What a row cites --------------------------------------------------------------------------

  /** The row has a site of that contract: its consumer's, its asserter's or a sibling's. */
  ghost predicate Site(row: Row, name: string, fn: string, line: int) {
    && (fn != "" || line != 0)
    && (|| (name == row.contract && fn == row.consumer && line == row.consumerLine)
        || (name == row.contract && fn == row.asserter && line == row.asserterLine)
        || (fn == "" && exists s :: s in row.siblings && s.contract == name && s.line == line))
  }

  lemma SiteExact(m: Model, contracts: seq<Contract>, machines: seq<string>, name: string, fn: string, line: int,
                  c: RowCite)
    requires IndexOf(m, contracts, machines)
    ensures c in SiteCitations(m, name, fn, line) <==>
            && (fn != "" || line != 0) && c.fn == fn && c.line == line
            && NamedAt(contracts, name, c.path) && (c.ambiguous <==> Shared(contracts, name, c.path))
  {
    NameKnown(m, contracts, machines, name, Citation(c.path, c.ambiguous));
  }

  lemma {:induction false} SiblingsExact(m: Model, siblings: seq<Sibling>, c: RowCite)
    ensures c in SiblingCitations(m, siblings) <==>
            exists s :: s in siblings && c in SiteCitations(m, s.contract, "", s.line)
  {
    if siblings != [] {
      SiblingsExact(m, siblings[1..], c);
      assert siblings == [siblings[0]] + siblings[1..];
    }
  }

  /** A row cites exactly the paths of its sites' contracts. */
  lemma RowExact(m: Model, contracts: seq<Contract>, machines: seq<string>, row: Row, c: RowCite)
    requires IndexOf(m, contracts, machines)
    ensures c in RowCitations(m, row) <==>
            exists name :: Site(row, name, c.fn, c.line) && NamedAt(contracts, name, c.path)
                           && (c.ambiguous <==> Shared(contracts, name, c.path))
  {
    SiteExact(m, contracts, machines, row.contract, row.consumer, row.consumerLine, c);
    SiteExact(m, contracts, machines, row.contract, row.asserter, row.asserterLine, c);
    SiblingsExact(m, row.siblings, c);
    forall s | s in row.siblings
      ensures c in SiteCitations(m, s.contract, "", s.line) <==>
              && s.line != 0 && c.fn == "" && c.line == s.line
              && NamedAt(contracts, s.contract, c.path) && (c.ambiguous <==> Shared(contracts, s.contract, c.path))
    {
      SiteExact(m, contracts, machines, s.contract, "", s.line, c);
    }
  }

  // ----- What a finding resolves to -----------------------------------------------------------------

  /** The recorded file is a model path, or ends in one, the longest, behind a slash. */
  ghost predicate Resolves(contracts: seq<Contract>, a: Affected, path: string) {
    var file := NormalizePath(if a.path != "" then a.path else a.file);
    && file != "" && ModelPath(contracts, path)
    && if ModelPath(contracts, file) then path == file
       else EndsWith(file, "/" + path)
            && forall q :: ModelPath(contracts, q) && EndsWith(file, "/" + q) ==> |q| <= |path|
  }

  lemma ResolvesExact(m: Model, contracts: seq<Contract>, machines: seq<string>, a: Affected, path: string)
    requires IndexOf(m, contracts, machines)
    ensures ResolvesTo(m, RawOf(a), path) <==> Resolves(contracts, a, path)
  {
    IndexMeans(m, contracts, machines);
    var file := NormalizePath(RawOf(a));
    forall q ensures HasSuffix(file, "/" + q) <==> EndsWith(file, "/" + q) { SuffixExact(file, "/" + q); }
  }

  /** Some finding's file resolves to the path. */
  ghost predicate Pins(contracts: seq<Contract>, arts: Artifacts, path: string) {
    exists f, a :: f in arts.findings && a in f.affected && Resolves(contracts, a, path)
  }

  lemma PinsExact(m: Model, contracts: seq<Contract>, machines: seq<string>, arts: Artifacts, path: string)
    requires IndexOf(m, contracts, machines)
    ensures Pinned(m, arts.findings, path) <==> Pins(contracts, arts, path)
  {
    forall a ensures ResolvesTo(m, RawOf(a), path) <==> Resolves(contracts, a, path) {
      ResolvesExact(m, contracts, machines, a, path);
    }
  }

  // ----- Who is a member of a key --------------------------------------------------------------------

  /** The key stands for the path, or for a function on it. */
  predicate KeyFor(key: string, path: string, fn: string) {
    key == path || (fn != "" && key == path + ("#" + fn))
  }

  /** A name with several paths counts for one of them only when a finding pins it. */
  ghost predicate Settled(contracts: seq<Contract>, arts: Artifacts, name: string, path: string) {
    Shared(contracts, name, path) ==> Pins(contracts, arts, path)
  }

  ghost predicate RowMember(contracts: seq<Contract>, arts: Artifacts, row: Row, key: string) {
    exists name, path, fn, line ::
      && Site(row, name, fn, line) && NamedAt(contracts, name, path)
      && Settled(contracts, arts, name, path) && KeyFor(key, path, fn)
  }

  ghost predicate PriorityMember(contracts: seq<Contract>, machines: seq<string>, arts: Artifacts, p: Priority,
                                 key: string)
  {
    exists component :: component in p.components && Leads(contracts, machines, component, key)
                        && Settled(contracts, arts, component, key)
  }

  ghost predicate FindingMember(contracts: seq<Contract>, f: Finding, key: string) {
    exists a, path :: a in f.affected && Resolves(contracts, a, path) && KeyFor(key, path, a.fn)
  }

  lemma LeadsSomewhere(contracts: seq<Contract>, machines: seq<string>, component: string, path: string)
    requires Leads(contracts, machines, component, path)
    ensures path != ""
  {
  }

  lemma PriorityMemberExact(m: Model, contracts: seq<Contract>, machines: seq<string>, arts: Artifacts, p: Priority,
                            key: string)
    requires IndexOf(m, contracts, machines)
    ensures PriorityNames(m, arts, p, key) <==> p.id != "" && PriorityMember(contracts, machines, arts, p, key)
  {
    PinsExact(m, contracts, machines, arts, key);
    if PriorityNames(m, arts, p, key) {
      var component, c :| component in p.components && c in ComponentCitations(m, component)
                          && Counts(m, arts, c.path, c.ambiguous) && key == c.path;
      ComponentExact(m, contracts, machines, component, c);
    }
    if p.id != "" && PriorityMember(contracts, machines, arts, p, key) {
      var component :| component in p.components && Leads(contracts, machines, component, key)
                       && Settled(contracts, arts, component, key);
      var c := Citation(key, Shared(contracts, component, key));
      LeadsSomewhere(contracts, machines, component, key);
      ComponentExact(m, contracts, machines, component, c);
      assert c in ComponentCitations(m, component);
    }
  }

  lemma RowMemberExact(m: Model, contracts: seq<Contract>, machines: seq<string>, arts: Artifacts, row: Row,
                       key: string)
    requires IndexOf(m, contracts, machines)
    ensures RowNames(m, arts, row, key) <==> row.id != "" && RowMember(contracts, arts, row, key)
  {
    if RowNames(m, arts, row, key) {
      var c :| c in RowCitations(m, row) && Counts(m, arts, c.path, c.ambiguous)
               && (key == c.path || key == KeyOf(c.path, c.fn));
      RowExact(m, contracts, machines, row, c);
      PinsExact(m, contracts, machines, arts, c.path);
      var name :| Site(row, name, c.fn, c.line) && NamedAt(contracts, name, c.path)
                  && (c.ambiguous <==> Shared(contracts, name, c.path));
      assert KeyFor(key, c.path, c.fn);
    }
    if row.id != "" && RowMember(contracts, arts, row, key) {
      var name, path, fn, line :| Site(row, name, fn, line) && NamedAt(contracts, name, path)
                                  && Settled(contracts, arts, name, path) && KeyFor(key, path, fn);
      var c := RowCite(path, Shared(contracts, name, path), fn, line);
      RowExact(m, contracts, machines, row, c);
      PinsExact(m, contracts, machines, arts, path);
      assert c in RowCitations(m, row);
    }
  }

  lemma FindingMemberExact(m: Model, contracts: seq<Contract>, machines: seq<string>, f: Finding, key: string)
    requires IndexOf(m, contracts, machines)
    ensures FindingNames(m, f, key) <==> f.id != "" && FindingMember(contracts, f, key)
  {
    forall a, path ensures ResolvesTo(m, RawOf(a), path) <==> Resolves(contracts, a, path) {
      ResolvesExact(m, contracts, machines, a, path);
    }
  }

  // ----- The anchors -----------------------------------------------------------------------------------

  ghost function RowIds(contracts: seq<Contract>, arts: Artifacts, key: string): set<string> {
    set r | r in arts.rows && r.id != "" && RowMember(contracts, arts, r, key) :: r.id
  }

  ghost function PriorityIds(contracts: seq<Contract>, machines: seq<string>, arts: Artifacts,
                             key: string): set<string>
  {
    set p | p in arts.priorities && p.id != "" && PriorityMember(contracts, machines, arts, p, key) :: p.id
  }

  ghost function FindingIds(contracts: seq<Contract>, arts: Artifacts, key: string): set<string> {
    set f | f in arts.findings && f.id != "" && FindingMember(contracts, f, key) :: f.id
  }

  lemma MembersExact(m: Model, contracts: seq<Contract>, machines: seq<string>, arts: Artifacts, key: string)
    requires IndexOf(m, contracts, machines)
    ensures Members(m, arts, Surface, key) == RowIds(contracts, arts, key)
    ensures Members(m, arts, Plan, key) == PriorityIds(contracts, machines, arts, key)
    ensures Members(m, arts, Findings, key) == FindingIds(contracts, arts, key)
  {
    forall r ensures RowNames(m, arts, r, key) <==> r.id != "" && RowMember(contracts, arts, r, key) {
      RowMemberExact(m, contracts, machines, arts, r, key);
    }
    forall p
      ensures PriorityNames(m, arts, p, key) <==> p.id != "" && PriorityMember(contracts, machines, arts, p, key)
    {
      PriorityMemberExact(m, contracts, machines, arts, p, key);
    }
    forall f ensures FindingNames(m, f, key) <==> f.id != "" && FindingMember(contracts, f, key) {
      FindingMemberExact(m, contracts, machines, f, key);
    }
  }

  /** Two of the three stores have a member. */
  predicate TwoOf(rows: set<string>, priorities: set<string>, findings: set<string>) {
    (rows != {} && priorities != {}) || (rows != {} && findings != {}) || (priorities != {} && findings != {})
  }

  /** The list holds the set, in order and without repeats. */
  ghost predicate Lists(list: seq<string>, s: set<string>) {
    Distinct(list) && Increasing(list) && forall x :: x in list <==> x in s
  }

  lemma ListsKeys(s: set<string>)
    ensures Lists(SetKeys(s), s)
  {
    SetKeysSorted(s);
    forall x ensures x in SetKeys(s) <==> x in s { assert x in SetKeys(s) <==> x in SetOf(SetKeys(s)); }
  }

  /** The key cut at its first '#'. */
  predicate Parts(key: string, path: string, fn: string) {
    if '#' in key then key == path + ("#" + fn) && '#' !in path else path == key && fn == ""
  }

  /** What an anchor says: its key's parts, the members of each store, and the stores that have one. */
  ghost predicate Says(contracts: seq<Contract>, machines: seq<string>, arts: Artifacts, a: Anchor) {
    && Parts(a.key, a.path, a.fn)
    && Lists(a.rows, RowIds(contracts, arts, a.key))
    && Lists(a.priorities, PriorityIds(contracts, machines, arts, a.key))
    && Lists(a.findings, FindingIds(contracts, arts, a.key))
    && Distinct(a.stores) && Increasing(a.stores)
    && forall s :: s in a.stores <==>
         || (s == "surface" && a.rows != []) || (s == "plan" && a.priorities != [])
            || (s == "findings" && a.findings != [])
  }

  lemma PartsExact(key: string)
    ensures Parts(key, PathPart(key), FnPart(key))
  {
    var i := FirstIndex(key, '#');
    if i < |key| {
      assert key[i] == '#' && key == key[..i] + ("#" + key[i + 1..]);
    }
  }

  lemma ListedEmpty(list: seq<string>, s: set<string>)
    requires Lists(list, s)
    ensures list == [] <==> s == {}
  {
    if list != [] { assert list[0] in s; }
  }

  lemma StoresExact(rows: set<string>, priorities: set<string>, findings: set<string>, s: string)
    ensures s in StoreNames(NamingOf(rows, priorities, findings)) <==>
            || (s == "surface" && rows != {}) || (s == "plan" && priorities != {})
               || (s == "findings" && findings != {})
  {
    var names := set t | t in NamingOf(rows, priorities, findings) :: StoreName(t);
    ListsKeys(names);
    assert StoreName(Surface) == "surface" && StoreName(Plan) == "plan" && StoreName(Findings) == "findings";
  }

  lemma AnchorSays(m: Model, contracts: seq<Contract>, machines: seq<string>, arts: Artifacts, key: string)
    requires IndexOf(m, contracts, machines)
    ensures Says(contracts, machines, arts, AnchorFor(m, arts, key))
  {
    var a := AnchorFor(m, arts, key);
    var rows, priorities, findings := RowIds(contracts, arts, key), PriorityIds(contracts, machines, arts, key),
                                      FindingIds(contracts, arts, key);
    MembersExact(m, contracts, machines, arts, key);
    PartsExact(key);
    ListsKeys(rows);
    ListsKeys(priorities);
    ListsKeys(findings);
    ListedEmpty(a.rows, rows);
    ListedEmpty(a.priorities, priorities);
    ListedEmpty(a.findings, findings);
    SetKeysSorted(set t | t in NamingOf(rows, priorities, findings) :: StoreName(t));
    forall s
      ensures s in a.stores <==>
              || (s == "surface" && a.rows != []) || (s == "plan" && a.priorities != [])
                 || (s == "findings" && a.findings != [])
    {
      StoresExact(rows, priorities, findings, s);
    }
  }

  /** A key is reported exactly when two of the three stores have a member of it; each anchor says
      what its key is and who the members are, and anchors are ordered by path and then function. */
  lemma AnchorsExact(m: Model, contracts: seq<Contract>, machines: seq<string>, arts: Artifacts, out: seq<Anchor>)
    requires IndexOf(m, contracts, machines) && Reported(m, arts, out)
    ensures forall key :: (exists a :: a in out && a.key == key) <==>
              TwoOf(RowIds(contracts, arts, key), PriorityIds(contracts, machines, arts, key),
                    FindingIds(contracts, arts, key))
    ensures forall a :: a in out ==> Says(contracts, machines, arts, a)
    ensures forall i, j :: 0 <= i < j < |out| ==>
              out[i].key != out[j].key && Leq(out[i].path, out[j].path)
                && (out[i].path == out[j].path ==> Leq(out[i].fn, out[j].fn))
  {
    forall key
      ensures Converges(m, arts, key) <==>
              TwoOf(RowIds(contracts, arts, key), PriorityIds(contracts, machines, arts, key),
                    FindingIds(contracts, arts, key))
    {
      MembersExact(m, contracts, machines, arts, key);
      ConvergesTwo(m, arts, key);
    }
    forall key | Converges(m, arts, key) ensures exists a :: a in out && a.key == key {
      assert AnchorFor(m, arts, key) in out;
    }
    forall a | a in out ensures Says(contracts, machines, arts, a) {
      AnchorSays(m, contracts, machines, arts, a.key);
    }
    forall i, j | 0 <= i < j < |out|
      ensures out[i].key != out[j].key && Leq(out[i].path, out[j].path)
              && (out[i].path == out[j].path ==> Leq(out[i].fn, out[j].fn))
    {
      assert out[i] in out && out[j] in out;
      LeqIsTotalOrder();
    }
  }

  lemma ConvergesTwo(m: Model, arts: Artifacts, key: string)
    ensures Converges(m, arts, key) <==>
            TwoOf(Members(m, arts, Surface, key), Members(m, arts, Plan, key), Members(m, arts, Findings, key))
  {
  }
}
