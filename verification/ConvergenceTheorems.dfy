/** Laws of the convergence join. */
module ConvergenceTheorems {
  import opened Ordering
  import opened Text
  import opened AnchorModel
  import opened Convergence

  // ----- Only the sets of artifacts matter ----------------------------------------------

  ghost predicate Within(a: Artifacts, b: Artifacts) {
    && (forall r :: r in a.rows ==> r in b.rows)
    && (forall p :: p in a.priorities ==> p in b.priorities)
    && (forall f :: f in a.findings ==> f in b.findings)
  }

  lemma CountsGrow(m: Model, a: Artifacts, b: Artifacts, path: string, ambiguous: bool)
    requires Within(a, b) && Counts(m, a, path, ambiguous)
    ensures Counts(m, b, path, ambiguous)
  {
  }

  /** Adding rows, priorities or findings never takes a member away from a key. */
  lemma MembersGrow(m: Model, a: Artifacts, b: Artifacts, store: Store, key: string)
    requires Within(a, b)
    ensures Members(m, a, store, key) <= Members(m, b, store, key)
  {
    forall path, ambiguous | Counts(m, a, path, ambiguous) ensures Counts(m, b, path, ambiguous) {
      CountsGrow(m, a, b, path, ambiguous);
    }
    forall r | RowNames(m, a, r, key) ensures RowNames(m, b, r, key) {}
    forall p | PriorityNames(m, a, p, key) ensures PriorityNames(m, b, p, key) {}
  }

  /** Adding artifacts never removes an anchor. */
  lemma AnchorsGrow(m: Model, a: Artifacts, b: Artifacts, key: string)
    requires Within(a, b) && Converges(m, a, key)
    ensures Converges(m, b, key)
  {
    var s: Store, t: Store :| s != t && Members(m, a, s, key) != {} && Members(m, a, t, key) != {};
    MembersGrow(m, a, b, s, key);
    MembersGrow(m, a, b, t, key);
  }

  lemma SameMembers(m: Model, a: Artifacts, b: Artifacts, store: Store, key: string)
    requires Within(a, b) && Within(b, a)
    ensures Members(m, a, store, key) == Members(m, b, store, key)
  {
    MembersGrow(m, a, b, store, key);
    MembersGrow(m, b, a, store, key);
  }

  lemma SameKeys(m: Model, a: Artifacts, b: Artifacts, key: string)
    requires Within(a, b) && Within(b, a)
    ensures Converges(m, a, key) <==> Converges(m, b, key)
    ensures AnchorFor(m, a, key) == AnchorFor(m, b, key)
  {
    if Converges(m, a, key) { AnchorsGrow(m, a, b, key); }
    if Converges(m, b, key) { AnchorsGrow(m, b, a, key); }
    SameMembers(m, a, b, Surface, key);
    SameMembers(m, a, b, Plan, key);
    SameMembers(m, a, b, Findings, key);
    SameAnchor(m, a, b, key);
  }

  /** Permuting or repeating artifacts changes nothing: what may be reported for one listing
      is what may be reported for the other. */
  lemma OrderFree(m: Model, a: Artifacts, b: Artifacts, out: seq<Anchor>)
    requires Within(a, b) && Within(b, a) && Reported(m, a, out)
    ensures Reported(m, b, out)
  {
    forall x: Anchor
      ensures (Converges(m, a, x.key) && x == AnchorFor(m, a, x.key)) <==>
              (Converges(m, b, x.key) && x == AnchorFor(m, b, x.key))
    {
      SameKeys(m, a, b, x.key);
    }
  }

  lemma SameAnchor(m: Model, a: Artifacts, b: Artifacts, key: string)
    requires Members(m, a, Surface, key) == Members(m, b, Surface, key)
    requires Members(m, a, Plan, key) == Members(m, b, Plan, key)
    requires Members(m, a, Findings, key) == Members(m, b, Findings, key)
    ensures AnchorFor(m, a, key) == AnchorFor(m, b, key)
  {
  }

  // ----- When the output sequence is determined ----------------------------------------------

  /** A key is put together again from its parts unless its first '#' is its last character. */
  lemma KeyParts(key: string)
    ensures key == KeyOf(PathPart(key), FnPart(key)) || key == PathPart(key) + "#"
    ensures '#' !in PathPart(key)
  {
    var i := FirstIndex(key, '#');
    if i < |key| {
      assert key == key[..i] + ("#" + key[i + 1..]);
    } else {
      assert key[..i] == key;
    }
  }

  /** Two reported keys that rank alike. */
  ghost predicate TiedKeys(m: Model, arts: Artifacts) {
    exists x :: '#' !in x && Converges(m, arts, x) && Converges(m, arts, x + "#")
  }

  lemma SameParts(m: Model, arts: Artifacts, a: string, b: string)
    requires PathPart(a) == PathPart(b) && FnPart(a) == FnPart(b) && a != b
    requires Converges(m, arts, a) && Converges(m, arts, b)
    ensures TiedKeys(m, arts)
  {
    KeyParts(a);
    KeyParts(b);
    var x := PathPart(a);
    if a == x + "#" {
      HashLast(x);
      assert b == x;
    } else {
      HashLast(x);
      assert b == x + "#" && a == x;
    }
  }

  lemma HashLast(x: string)
    requires '#' !in x
    ensures PathPart(x + "#") == x && FnPart(x + "#") == ""
    ensures PathPart(x) == x && FnPart(x) == ""
  {
    var i := FirstIndex(x + "#", '#');
    assert (x + "#")[|x|] == '#';
    assert forall j :: 0 <= j < |x| ==> (x + "#")[j] == x[j];
    assert i == |x|;
    var k := FirstIndex(x, '#');
    assert k == |x|;
  }

  lemma SameContents(m: Model, arts: Artifacts, a: seq<Anchor>, b: seq<Anchor>)
    requires Reported(m, arts, a) && Reported(m, arts, b)
    ensures multiset(a) == multiset(b)
  {
    assert SetOf(a) == SetOf(b);
    DistinctMultiset(a);
    DistinctMultiset(b);
  }

  lemma Untied(m: Model, arts: Artifacts, a: seq<Anchor>)
    requires Reported(m, arts, a) && !TiedKeys(m, arts)
    ensures forall x, y :: x in a && y in a && AnchorLeq(x, y) && AnchorLeq(y, x) ==> x == y
  {
    forall x, y | x in a && y in a && AnchorLeq(x, y) && AnchorLeq(y, x) ensures x == y {
      LeqTotal(x.path, y.path);
      LeqTotal(x.fn, y.fn);
      if x.key != y.key {
        SameParts(m, arts, x.key, y.key);
      }
    }
  }

  lemma SwapDistinct<T>(s: seq<T>, i: nat, j: nat)
    requires i < j < |s| && Distinct(s)
    ensures Distinct(s[i := s[j]][j := s[i]]) && s[i := s[j]][j := s[i]] != s
  {
    var swapped := s[i := s[j]][j := s[i]];
    assert swapped[i] == s[j] != s[i];
  }

  lemma SwapContents<T>(s: seq<T>, i: nat, j: nat, x: T)
    requires i < j < |s|
    ensures x in s[i := s[j]][j := s[i]] <==> x in s
  {
    var swapped := s[i := s[j]][j := s[i]];
    if x in s {
      var k :| 0 <= k < |s| && s[k] == x;
      assert swapped[if k == i then j else if k == j then i else k] == x;
    }
  }

  lemma SwapSorted(s: seq<Anchor>, i: nat, j: nat)
    requires i < j < |s| && SortedBy(AnchorLeq, s)
    requires s[i].path == s[j].path && s[i].fn == s[j].fn
    ensures SortedBy(AnchorLeq, s[i := s[j]][j := s[i]])
  {
    var swapped := s[i := s[j]][j := s[i]];
    forall k | 0 <= k < |s| ensures swapped[k].path == s[k].path && swapped[k].fn == s[k].fn {}
    forall k, l | 0 <= k < l < |s| ensures AnchorLeq(swapped[k], swapped[l]) {
      assert AnchorLeq(s[k], s[l]);
    }
  }

  lemma SwapTied(m: Model, arts: Artifacts, out: seq<Anchor>, i: nat, j: nat)
    requires Reported(m, arts, out) && i < j < |out|
    requires out[i].path == out[j].path && out[i].fn == out[j].fn
    ensures exists other :: Reported(m, arts, other) && other != out
  {
    SwapDistinct(out, i, j);
    SwapSorted(out, i, j);
    var swapped := out[i := out[j]][j := out[i]];
    forall x ensures x in swapped <==> x in out { SwapContents(out, i, j, x); }
    assert Reported(m, arts, swapped);
  }

  lemma UntiedOutput(m: Model, arts: Artifacts, out: seq<Anchor>, other: seq<Anchor>)
    requires Reported(m, arts, out) && Reported(m, arts, other) && !TiedKeys(m, arts)
    ensures other == out
  {
    SameContents(m, arts, out, other);
    Untied(m, arts, out);
    SortedUnique(AnchorLeq, out, other);
  }

  lemma ReportedAt(m: Model, arts: Artifacts, out: seq<Anchor>, key: string) returns (i: nat)
    requires Reported(m, arts, out) && Converges(m, arts, key)
    ensures i < |out| && out[i].key == key && out[i].path == PathPart(key) && out[i].fn == FnPart(key)
  {
    var a := AnchorFor(m, arts, key);
    assert a.key == key;
    assert a in out;
    i :| i < |out| && out[i] == a;
  }

  lemma TiedOutput(m: Model, arts: Artifacts, out: seq<Anchor>)
    requires Reported(m, arts, out) && TiedKeys(m, arts)
    ensures exists other :: Reported(m, arts, other) && other != out
  {
    var x :| '#' !in x && Converges(m, arts, x) && Converges(m, arts, x + "#");
    HashLast(x);
    var i := ReportedAt(m, arts, out, x);
    var j := ReportedAt(m, arts, out, x + "#");
    assert out[i].key != out[j].key;
    if i < j {
      SwapTied(m, arts, out, i, j);
    } else {
      SwapTied(m, arts, out, j, i);
    }
  }

  /** The output sequence is determined by the artifacts exactly when no two converging keys
      are "x" and "x#"; such a pair ranks alike, and the order the map yields its keys in
      shows. */
  lemma OutputDetermined(m: Model, arts: Artifacts, out: seq<Anchor>)
    requires Reported(m, arts, out)
    ensures (forall other :: Reported(m, arts, other) ==> other == out) <==> !TiedKeys(m, arts)
  {
    if TiedKeys(m, arts) {
      TiedOutput(m, arts, out);
    } else {
      forall other | Reported(m, arts, other) ensures other == out { UntiedOutput(m, arts, out, other); }
    }
  }

  // ----- When every output sequence is determined -------------------------------------------------

  /** Every converging key is a model path, alone or with a function. */
  lemma ConvergingSite(m: Model, arts: Artifacts, key: string) returns (p: string, fn: string)
    requires WellFormed(m) && Converges(m, arts, key)
    ensures p in m.pathSet && key == KeyOf(p, fn) && key in NamedKeys(m, arts)
  {
    var store: Store :| store != Plan && Members(m, arts, store, key) != {};
    var id :| id in Members(m, arts, store, key);
    if store == Surface {
      var r :| r in arts.rows && RowNames(m, arts, r, key) && r.id == id;
      p, fn := RowSite(m, arts, r, key);
    } else {
      var f :| f in arts.findings && FindingNames(m, f, key) && f.id == id;
      p, fn := FindingSite(m, arts, f, key);
    }
  }

  lemma RowSite(m: Model, arts: Artifacts, r: Row, key: string) returns (p: string, fn: string)
    requires WellFormed(m) && r in arts.rows && RowNames(m, arts, r, key)
    ensures p in m.pathSet && key == KeyOf(p, fn) && key in NamedKeys(m, arts)
  {
    var c :| c in RowCitations(m, r) && Counts(m, arts, c.path, c.ambiguous)
             && (key == c.path || key == KeyOf(c.path, c.fn));
    var name := RowCited(m, r, c);
    p, fn := c.path, if key == c.path then "" else c.fn;
    assert KeyOf(c.path, "") == c.path;
  }

  lemma FindingSite(m: Model, arts: Artifacts, f: Finding, key: string) returns (p: string, fn: string)
    requires f in arts.findings && FindingNames(m, f, key)
    ensures p in m.pathSet && key == KeyOf(p, fn) && key in NamedKeys(m, arts)
  {
    var a, q :| a in f.affected && ResolvesTo(m, RawOf(a), q) && (key == q || key == KeyOf(q, a.fn));
    p, fn := q, if key == q then "" else a.fn;
    assert KeyOf(q, "") == q;
  }

  /** The keys the rows and findings name, counted or not. */
  ghost function NamedKeys(m: Model, arts: Artifacts): set<string> {
    (set r, c | r in arts.rows && c in RowCitations(m, r) :: c.path)
    + (set r, c | r in arts.rows && c in RowCitations(m, r) :: KeyOf(c.path, c.fn))
    + (set f, a, p | f in arts.findings && a in f.affected && p in m.pathSet && ResolvesTo(m, RawOf(a), p) :: p)
    + (set f, a, p | f in arts.findings && a in f.affected && p in m.pathSet && ResolvesTo(m, RawOf(a), p)
       :: KeyOf(p, a.fn))
  }

  ghost function ConvergingAnchors(m: Model, arts: Artifacts): set<Anchor> {
    set key | key in NamedKeys(m, arts) && Converges(m, arts, key) :: AnchorFor(m, arts, key)
  }

  lemma ConvergingListed(m: Model, arts: Artifacts, a: Anchor)
    requires WellFormed(m)
    ensures a in ConvergingAnchors(m, arts) <==> Converges(m, arts, a.key) && a == AnchorFor(m, arts, a.key)
  {
    if Converges(m, arts, a.key) {
      var p, fn := ConvergingSite(m, arts, a.key);
    }
  }

  /** Some output always meets the definition. */
  lemma ReportedExists(m: Model, arts: Artifacts) returns (out: seq<Anchor>)
    requires WellFormed(m)
    ensures Reported(m, arts, out)
  {
    var listed := SetListed(ConvergingAnchors(m, arts));
    AnchorLeqIsPreorder();
    SortCorrect(AnchorLeq, listed);
    out := Sort(AnchorLeq, listed);
    DistinctByMultiset(listed, out);
    forall a ensures a in out <==> Converges(m, arts, a.key) && a == AnchorFor(m, arts, a.key) {
      assert a in SetOf(out) <==> a in ConvergingAnchors(m, arts);
      ConvergingListed(m, arts, a);
    }
  }

  ghost predicate Determined(m: Model, arts: Artifacts) {
    forall a, b :: Reported(m, arts, a) && Reported(m, arts, b) ==> a == b
  }

  lemma DeterminedUntied(m: Model, arts: Artifacts)
    requires WellFormed(m)
    ensures Determined(m, arts) <==> !TiedKeys(m, arts)
  {
    if TiedKeys(m, arts) {
      var out := ReportedExists(m, arts);
      TiedOutput(m, arts, out);
    } else {
      forall a, b | Reported(m, arts, a) && Reported(m, arts, b) ensures a == b { UntiedOutput(m, arts, a, b); }
    }
  }

  /** Two model paths "x" and "x#". */
  ghost predicate HashTwins(m: Model) {
    exists x :: '#' !in x && x in m.pathSet && x + "#" in m.pathSet
  }

  lemma KeyHash(p: string, fn: string)
    requires fn != ""
    ensures |KeyOf(p, fn)| > |p| + 1 && KeyOf(p, fn)[|p|] == '#'
  {
  }

  lemma LastHash(x: string, p: string, fn: string)
    requires '#' !in x && x + "#" == KeyOf(p, fn)
    ensures fn == "" && p == x + "#"
  {
    if fn != "" { KeyHash(p, fn); }
  }

  lemma NoHash(x: string, p: string, fn: string)
    requires '#' !in x && x == KeyOf(p, fn)
    ensures p == x
  {
    if fn != "" { KeyHash(p, fn); }
  }

  /** Tied keys come only from twin paths. */
  lemma TiedNeedsTwins(m: Model, arts: Artifacts)
    requires WellFormed(m) && TiedKeys(m, arts)
    ensures HashTwins(m)
  {
    var x :| '#' !in x && Converges(m, arts, x) && Converges(m, arts, x + "#");
    var p, fn := ConvergingSite(m, arts, x);
    NoHash(x, p, fn);
    var q, gn := ConvergingSite(m, arts, x + "#");
    LastHash(x, q, gn);
  }

  function Joined(a: Artifacts, b: Artifacts): Artifacts {
    Artifacts(a.rows + b.rows, a.priorities + b.priorities, a.findings + b.findings)
  }

  /** Twin paths tie: one row and one finding on each is such an input. */
  lemma TwinsTie(m: Model, contracts: seq<Contract>, machines: seq<string>) returns (arts: Artifacts)
    requires IndexOf(m, contracts, machines) && HashTwins(m)
    ensures TiedKeys(m, arts)
  {
    var x :| '#' !in x && x in m.pathSet && x + "#" in m.pathSet;
    var n1, r1 := SiteOf(m, contracts, machines, x);
    var n2, r2 := SiteOf(m, contracts, machines, x + "#");
    var a, b := Witness(n1, r1, ""), Witness(n2, r2, "");
    arts := Joined(a, b);
    WitnessConverges(m, n1, r1, "", x);
    WitnessConverges(m, n2, r2, "", x + "#");
    AnchorsGrow(m, a, arts, x);
    AnchorsGrow(m, b, arts, x + "#");
  }

  /** The same artifacts always give the same anchors, in the same order, exactly when the
      model has no two paths "x" and "x#". */
  lemma DeterminedIff(m: Model, contracts: seq<Contract>, machines: seq<string>)
    requires IndexOf(m, contracts, machines)
    ensures (forall arts :: Determined(m, arts)) <==> !HashTwins(m)
  {
    if HashTwins(m) {
      var arts := TwinsTie(m, contracts, machines);
      DeterminedUntied(m, arts);
    } else {
      forall arts ensures Determined(m, arts) {
        if TiedKeys(m, arts) { TiedNeedsTwins(m, arts); }
        DeterminedUntied(m, arts);
      }
    }
  }

  // ----- The collision rule --------------------------------------------------------------------

  ghost predicate HashFree(m: Model) {
    forall p :: p in m.pathSet ==> '#' !in p
  }

  lemma KeyOfParts(path: string, fn: string)
    requires '#' !in path
    ensures PathPart(KeyOf(path, fn)) == path && FnPart(KeyOf(path, fn)) == fn
  {
    var key := KeyOf(path, fn);
    assert forall j :: 0 <= j < |path| ==> key[j] == path[j];
    if fn == "" {
      HashLast(path);
    } else {
      assert key[|path|] == '#';
      assert FirstIndex(key, '#') == |path|;
      assert key[|path| + 1..] == fn;
    }
  }

  lemma SiteInModel(m: Model, name: string, fn: string, line: int, c: RowCite)
    requires WellFormed(m) && c in SiteCitations(m, name, fn, line)
    ensures Citation(c.path, c.ambiguous) in NameCitations(m, name) && c.path in m.pathSet && name != ""
  {
    CitedInModel(m, name, Citation(c.path, c.ambiguous));
  }

  /** Every row coordinate is a citation of some contract name the row carries. */
  lemma {:induction false} SiblingCited(m: Model, siblings: seq<Sibling>, c: RowCite) returns (name: string)
    requires WellFormed(m) && c in SiblingCitations(m, siblings)
    ensures Citation(c.path, c.ambiguous) in NameCitations(m, name) && c.path in m.pathSet
  {
    if c in SiteCitations(m, siblings[0].contract, "", siblings[0].line) {
      name := siblings[0].contract;
      SiteInModel(m, name, "", siblings[0].line, c);
    } else {
      name := SiblingCited(m, siblings[1..], c);
    }
  }

  lemma RowCited(m: Model, row: Row, c: RowCite) returns (name: string)
    requires WellFormed(m) && c in RowCitations(m, row)
    ensures Citation(c.path, c.ambiguous) in NameCitations(m, name) && c.path in m.pathSet
  {
    if c in SiblingCitations(m, row.siblings) {
      name := SiblingCited(m, row.siblings, c);
    } else {
      name := row.contract;
      if c in SiteCitations(m, name, row.consumer, row.consumerLine) {
        SiteInModel(m, name, row.consumer, row.consumerLine, c);
      } else {
        SiteInModel(m, name, row.asserter, row.asserterLine, c);
      }
    }
  }

  /** Two stores that cite only an ambiguous name never manufacture an anchor: a path that
      no name identifies alone, and that no finding pins, has no converging key. */
  lemma NoManufacturedAnchor(m: Model, arts: Artifacts, path: string, fn: string)
    requires WellFormed(m) && HashFree(m) && path in m.pathSet
    requires forall name :: Carries(m, name, path) ==> exists other :: Carries(m, name, other) && other != path
    requires !Pinned(m, arts.findings, path)
    ensures !Converges(m, arts, KeyOf(path, fn))
  {
    var key := KeyOf(path, fn);
    KeyOfParts(path, fn);
    assert Members(m, arts, Surface, key) == {} by {
      forall r | r in arts.rows ensures !RowNames(m, arts, r, key) {
        forall c | c in RowCitations(m, r) && Counts(m, arts, c.path, c.ambiguous)
          ensures key != c.path && key != KeyOf(c.path, c.fn)
        {
          var name := RowCited(m, r, c);
          KeyOfParts(c.path, "");
          KeyOfParts(c.path, c.fn);
          NameCitationsExact(m, name, Citation(c.path, c.ambiguous));
        }
      }
    }
    assert Members(m, arts, Findings, key) == {} by {
      forall f | f in arts.findings ensures !FindingNames(m, f, key) {
        forall a, p | a in f.affected && ResolvesTo(m, RawOf(a), p) ensures key != p && key != KeyOf(p, a.fn) {
          KeyOfParts(p, "");
          KeyOfParts(p, a.fn);
        }
      }
    }
    assert forall s: Store :: s != Plan ==> Members(m, arts, s, key) == {};
  }

  // ----- Function-level anchors ----------------------------------------------------------------

  /** A function-level key rests on its bare path: plans never name it, and the bare path
      converges with at least the same members. */
  ghost predicate FunctionKeySound(m: Model, arts: Artifacts, key: string) {
    && Members(m, arts, Plan, key) == {}
    && Converges(m, arts, PathPart(key))
    && Members(m, arts, Surface, key) <= Members(m, arts, Surface, PathPart(key))
    && Members(m, arts, Findings, key) <= Members(m, arts, Findings, PathPart(key))
  }

  lemma SurfaceFunctionKey(m: Model, arts: Artifacts, key: string)
    requires WellFormed(m) && HashFree(m) && FnPart(key) != ""
    ensures Members(m, arts, Surface, key) <= Members(m, arts, Surface, PathPart(key))
  {
    forall r | r in arts.rows && RowNames(m, arts, r, key) ensures RowNames(m, arts, r, PathPart(key)) {
      var c :| c in RowCitations(m, r) && Counts(m, arts, c.path, c.ambiguous)
               && (key == c.path || key == KeyOf(c.path, c.fn));
      var name := RowCited(m, r, c);
      KeyOfParts(c.path, "");
      KeyOfParts(c.path, c.fn);
    }
  }

  lemma FindingFunctionKey(m: Model, arts: Artifacts, key: string)
    requires WellFormed(m) && HashFree(m) && FnPart(key) != ""
    ensures Members(m, arts, Findings, key) <= Members(m, arts, Findings, PathPart(key))
  {
    forall f | f in arts.findings && FindingNames(m, f, key) ensures FindingNames(m, f, PathPart(key)) {
      var a, p :| a in f.affected && ResolvesTo(m, RawOf(a), p) && (key == p || key == KeyOf(p, a.fn));
      KeyOfParts(p, "");
      KeyOfParts(p, a.fn);
    }
  }

  lemma PlanFunctionKey(m: Model, arts: Artifacts, key: string)
    requires WellFormed(m) && HashFree(m) && FnPart(key) != ""
    ensures Members(m, arts, Plan, key) == {}
  {
    forall p | p in arts.priorities ensures !PriorityNames(m, arts, p, key) {
      forall component, c | component in p.components && c in ComponentCitations(m, component) ensures key != c.path {
        CitedInModel(m, component, c);
        KeyOfParts(c.path, "");
      }
    }
  }

  lemma FunctionKeysSound(m: Model, arts: Artifacts, key: string)
    requires WellFormed(m) && HashFree(m) && FnPart(key) != "" && Converges(m, arts, key)
    ensures FunctionKeySound(m, arts, key)
  {
    SurfaceFunctionKey(m, arts, key);
    FindingFunctionKey(m, arts, key);
    PlanFunctionKey(m, arts, key);
    var s: Store, t: Store :| s != t && Members(m, arts, s, key) != {} && Members(m, arts, t, key) != {};
    assert s != Plan && t != Plan;
    assert Members(m, arts, Surface, PathPart(key)) != {} && Members(m, arts, Findings, PathPart(key)) != {};
  }

  /** A contract `name` whose raw path is indexed as `path`. */
  ghost predicate Sited(m: Model, name: string, raw: string, path: string) {
    WellFormed(m) && Carries(m, name, path) && name != "" && NormalizePath(raw) == path && path in m.pathSet
  }

  /** Every indexed path has such a contract. */
  lemma SiteOf(m: Model, contracts: seq<Contract>, machines: seq<string>, path: string)
    returns (name: string, raw: string)
    requires IndexOf(m, contracts, machines) && path in m.pathSet
    ensures Sited(m, name, raw, path)
  {
    name :| ContractAt(contracts, name, path);
    assert Carries(m, name, path);
    var c :| c in contracts && c.name == name && NormalizePath(c.path) == path;
    raw := c.path;
  }

  /** One row and one finding that both name function `fn` of the path `raw` stands for. */
  function Witness(name: string, raw: string, fn: string): Artifacts {
    Artifacts([Row("r", name, fn, 1, "", 0, [], 1)], [], [Finding("F", [Affected(raw, "", fn, [])])])
  }

  lemma WitnessPins(m: Model, name: string, raw: string, fn: string, path: string, p: string)
    requires Sited(m, name, raw, path)
    ensures Pinned(m, Witness(name, raw, fn).findings, p) <==> p == path
  {
    var arts := Witness(name, raw, fn);
    var f := arts.findings[0];
    var a := f.affected[0];
    assert f in arts.findings && a in f.affected && RawOf(a) == raw;
    assert ResolvesTo(m, RawOf(a), path);
    if Pinned(m, arts.findings, p) {
      var g, b :| g in arts.findings && b in g.affected && ResolvesTo(m, RawOf(b), p);
      ResolvesOnce(m, RawOf(a), p, path);
    }
  }

  lemma WitnessCites(m: Model, name: string, raw: string, fn: string, c: RowCite)
    requires name != ""
    ensures c in RowCitations(m, Witness(name, raw, fn).rows[0]) <==>
            Citation(c.path, c.ambiguous) in NameCitations(m, name) && c.fn == fn && c.line == 1
  {
    var row := Witness(name, raw, fn).rows[0];
    assert SiblingCitations(m, row.siblings) == [] && SiteCitations(m, name, "", 0) == [];
    assert RowCitations(m, row) == WithSite(NameCitations(m, name), fn, 1);
  }

  lemma WitnessCounts(m: Model, name: string, raw: string, fn: string, path: string, c: Citation)
    requires Sited(m, name, raw, path) && c in NameCitations(m, name)
    ensures Counts(m, Witness(name, raw, fn), c.path, c.ambiguous) <==> c.path == path
  {
    WitnessPins(m, name, raw, fn, path, c.path);
    NameCitationsExact(m, name, c);
    CitedInModel(m, name, c);
  }

  lemma WitnessRowNames(m: Model, name: string, raw: string, fn: string, path: string, key: string)
    requires Sited(m, name, raw, path)
    ensures RowNames(m, Witness(name, raw, fn), Witness(name, raw, fn).rows[0], key) <==>
            key == path || key == KeyOf(path, fn)
  {
    var arts := Witness(name, raw, fn);
    var row := arts.rows[0];
    var own := RowCite(path, |m.namePaths[name]| > 1, fn, 1);
    WitnessCites(m, name, raw, fn, own);
    WitnessCounts(m, name, raw, fn, path, Citation(own.path, own.ambiguous));
    forall c | c in RowCitations(m, row) && Counts(m, arts, c.path, c.ambiguous) ensures c.path == path && c.fn == fn {
      WitnessCites(m, name, raw, fn, c);
      WitnessCounts(m, name, raw, fn, path, Citation(c.path, c.ambiguous));
    }
  }

  lemma WitnessRow(m: Model, name: string, raw: string, fn: string, path: string, key: string)
    requires Sited(m, name, raw, path)
    ensures Members(m, Witness(name, raw, fn), Surface, key) ==
            if key == path || key == KeyOf(path, fn) then {"r"} else {}
  {
    assert Witness(name, raw, fn).rows[0] in Witness(name, raw, fn).rows;
    WitnessRowNames(m, name, raw, fn, path, key);
  }

  lemma WitnessFindingNames(m: Model, name: string, raw: string, fn: string, path: string, key: string)
    requires Sited(m, name, raw, path)
    ensures FindingNames(m, Witness(name, raw, fn).findings[0], key) <==> key == path || key == KeyOf(path, fn)
  {
    var f := Witness(name, raw, fn).findings[0];
    var a := f.affected[0];
    assert a in f.affected && RawOf(a) == raw && ResolvesTo(m, raw, path);
    forall p | ResolvesTo(m, RawOf(a), p) ensures p == path { ResolvesOnce(m, RawOf(a), p, path); }
  }

  lemma WitnessFinding(m: Model, name: string, raw: string, fn: string, path: string, key: string)
    requires Sited(m, name, raw, path)
    ensures Members(m, Witness(name, raw, fn), Findings, key) ==
            if key == path || key == KeyOf(path, fn) then {"F"} else {}
  {
    assert Witness(name, raw, fn).findings[0] in Witness(name, raw, fn).findings;
    WitnessFindingNames(m, name, raw, fn, path, key);
  }

  /** The two converge at the path and at the path with the function, and nowhere else. */
  lemma WitnessConverges(m: Model, name: string, raw: string, fn: string, path: string)
    requires Sited(m, name, raw, path)
    ensures forall key :: Converges(m, Witness(name, raw, fn), key) <==> key == path || key == KeyOf(path, fn)
    ensures forall key :: key == path || key == KeyOf(path, fn) ==>
            "F" in Members(m, Witness(name, raw, fn), Findings, key)
  {
    var arts := Witness(name, raw, fn);
    forall key
      ensures Converges(m, arts, key) <==> key == path || key == KeyOf(path, fn)
      ensures key == path || key == KeyOf(path, fn) ==> "F" in Members(m, arts, Findings, key)
    {
      WitnessRow(m, name, raw, fn, path, key);
      WitnessFinding(m, name, raw, fn, path, key);
      assert Members(m, arts, Plan, key) == {};
      if key == path || key == KeyOf(path, fn) {
        assert Members(m, arts, Surface, key) != {} && Members(m, arts, Findings, key) != {};
      } else {
        assert forall s: Store :: Members(m, arts, s, key) == {};
      }
    }
  }

  /** With a '#' in a model path the law fails: the key of a function of that path splits
      elsewhere, and no anchor stands at the path it splits to. */
  lemma HashBreaksFunctionKeys(m: Model, name: string, raw: string, path: string)
    requires Sited(m, name, raw, path) && '#' in path
    ensures var arts, key := Witness(name, raw, "f"), KeyOf(path, "f");
            Converges(m, arts, key) && FnPart(key) != "" && !FunctionKeySound(m, arts, key)
  {
    var key := KeyOf(path, "f");
    WitnessConverges(m, name, raw, "f", path);
    var k :| 0 <= k < |path| && path[k] == '#';
    assert key[k] == '#';
    assert |PathPart(key)| < |path|;
  }

  ghost predicate FunctionLaw(m: Model) {
    forall arts, key :: Converges(m, arts, key) && FnPart(key) != "" ==> FunctionKeySound(m, arts, key)
  }

  /** For every index the function-level law holds, for all artifacts, exactly when no model
      path contains a '#'. */
  lemma FunctionLawIff(m: Model, contracts: seq<Contract>, machines: seq<string>)
    requires IndexOf(m, contracts, machines)
    ensures FunctionLaw(m) <==> HashFree(m)
  {
    if HashFree(m) {
      forall arts, key | Converges(m, arts, key) && FnPart(key) != "" ensures FunctionKeySound(m, arts, key) {
        FunctionKeysSound(m, arts, key);
      }
    } else {
      var path :| path in m.pathSet && '#' in path;
      var name, raw := SiteOf(m, contracts, machines, path);
      HashBreaksFunctionKeys(m, name, raw, path);
    }
  }
}
