/** `Query` is at least as wide as `Convergences`. */
module AnchorQueryTheorems {
  import opened Ordering
  import opened Text
  import opened AnchorModel
  import opened PathText
  import opened Convergence
  import opened ConvergenceTheorems
  import opened AnchorQuery

  // ----- A key that parses back to its own parts ------------------------------------------

  /** A path and function whose key reads back as itself. */
  predicate Clean(path: string, fn: string) {
    && NormalizePath(path) == path
    && !DigitTail(path)
    && !DigitTail(fn)
    && !EdgeSpace(fn)
  }

  lemma KeyTrims(path: string, fn: string)
    requires path != "" && !GoSpace(path[0]) && !EdgeSpace(path) && !EdgeSpace(fn)
    ensures TrimSpace(KeyOf(path, fn)) == KeyOf(path, fn)
  {
    var key := KeyOf(path, fn);
    assert key[0] == path[0];
    if fn != "" {
      assert key[|key| - 1] == fn[|fn| - 1];
    }
    NoEdgeTrims(key);
  }

  lemma CleanKeyParses(path: string, fn: string)
    requires path != "" && '#' !in path && Clean(path, fn)
    ensures ParsePattern(KeyOf(path, fn)) == Some(Pattern(path, fn, 0))
  {
    NormalizedHasNoEdges(path);
    KeyTrims(path, fn);
    KeyOfParts(path, fn);
  }

  lemma ParsedParts(text: string, path: string, fn: string)
    requires ParsePattern(text) == Some(Pattern(path, fn, 0))
    ensures var p, f := PathPart(TrimSpace(text)), FnPart(TrimSpace(text));
            |path| <= |p| && |fn| <= |f|
            && (path == p ==> !DigitTail(p) && NormalizePath(p) == p)
            && (fn == f ==> !DigitTail(f))
  {
    var p := PathPart(TrimSpace(text));
    NormalizeShorter(DropTail(p));
    assert |NormalizePath(DropTail(p))| <= |DropTail(p)|;
  }

  lemma KeyKept(path: string, fn: string)
    requires path != "" && '#' !in path && ParsePattern(KeyOf(path, fn)) == Some(Pattern(path, fn, 0))
    ensures TrimSpace(KeyOf(path, fn)) == KeyOf(path, fn) && !EdgeSpace(KeyOf(path, fn))
  {
    var key := KeyOf(path, fn);
    ParsedParts(key, path, fn);
    TrimShorter(key);
    TrimShorter(TrimLeft(key));
    assert |TrimSpace(key)| >= |key|;
  }

  lemma ParsedIsClean(path: string, fn: string)
    requires path != "" && '#' !in path && ParsePattern(KeyOf(path, fn)) == Some(Pattern(path, fn, 0))
    ensures Clean(path, fn)
  {
    KeyKept(path, fn);
    KeyOfParts(path, fn);
    ParsedParts(KeyOf(path, fn), path, fn);
    assert fn != "" ==> KeyOf(path, fn)[|path| + |fn|] == fn[|fn| - 1];
  }

  /** The key of a path and function reads back as that path and function exactly when the
      path is normalized and neither part has a ":<digits>" tail or a trailing space. */
  lemma KeyParsesIff(path: string, fn: string)
    requires path != "" && '#' !in path
    ensures ParsePattern(KeyOf(path, fn)) == Some(Pattern(path, fn, 0)) <==> Clean(path, fn)
  {
    if Clean(path, fn) {
      CleanKeyParses(path, fn);
    } else if ParsePattern(KeyOf(path, fn)) == Some(Pattern(path, fn, 0)) {
      ParsedIsClean(path, fn);
    }
  }

  // ----- Coverage ---------------------------------------------------------------------------------

  /** The answer holds every row and finding member of the key, and every open priority
      member. */
  ghost predicate Covers(m: Model, arts: Artifacts, key: string, out: Matches) {
    && (forall id :: id in Members(m, arts, Surface, key) ==> exists r :: r in out.rows && r.rowId == id)
    && (forall id :: id in Members(m, arts, Findings, key) ==> id in out.findings)
    && (forall p :: p in arts.priorities && PriorityOpen(p) && PriorityNames(m, arts, p, key) ==>
        p.id in out.priorities)
  }

  lemma {:induction false} AnsweredRow(m: Model, rows: seq<Row>, priorities: seq<Priority>, q: Pattern,
                                       out: seq<RowMatch>, row: Row)
    requires RowsAnswered(m, rows, priorities, q, out)
    requires row in rows && row.id != "" && RowMatched(m, row, q)
    ensures exists r :: r in out && r.rowId == row.id
    decreases |rows|
  {
    var n := |rows| - 1;
    SplitLast(rows);
    if row == rows[n] {
      assert out[|out| - 1] in out;
    } else if rows[n].id == "" || !RowMatched(m, rows[n], q) {
      AnsweredRow(m, rows[..n], priorities, q, out, row);
    } else {
      AnsweredRow(m, rows[..n], priorities, q, out[..|out| - 1], row);
    }
  }

  lemma {:induction false} AnsweredPriority(m: Model, priorities: seq<Priority>, q: Pattern, p: Priority)
    requires p in priorities && PriorityMatched(m, p, q)
    ensures p.id in OpenMatches(m, priorities, q)
    decreases |priorities|
  {
    SplitLast(priorities);
    if p != priorities[|priorities| - 1] { AnsweredPriority(m, priorities[..|priorities| - 1], q, p); }
  }

  lemma {:induction false} AnsweredFinding(m: Model, findings: seq<Finding>, q: Pattern, f: Finding)
    requires f in findings && f.id != "" && FindingMatched(m, f, q)
    ensures f.id in FindingsMatched(m, findings, q)
    decreases |findings|
  {
    SplitLast(findings);
    if f != findings[|findings| - 1] { AnsweredFinding(m, findings[..|findings| - 1], q, f); }
  }

  // ----- Which keys select their own site ----------------------------------------------------

  /** What the pattern read from a site's key selects: its path part matches the site's path,
      its function part is absent or the site's, and it asks for no line. */
  predicate SelectsSite(q: Pattern, path: string, fn: string) {
    PathMatches(q.path, path) && (q.fn == "" || q.fn == fn) && q.line == 0
  }

  predicate Selects(path: string, fn: string) {
    match ParsePattern(KeyOf(path, fn))
    case None => false
    case Some(q) => SelectsSite(q, path, fn)
  }

  /** No model path with a '#' is the path of a site that has the key. */
  ghost predicate Unhashed(m: Model, key: string) {
    forall p :: p in m.pathSet && '#' in p ==> p != key && !(p + "#" < key)
  }

  lemma UnhashedSite(m: Model, key: string, p: string, f: string)
    requires Unhashed(m, key) && p in m.pathSet && KeyOf(p, f) == key
    ensures '#' !in p
  {
    if f != "" { assert p + "#" < key; }
  }

  /** Keys of '#'-free paths are equal only when their parts are. */
  lemma SameKeyParts(path: string, fn: string, p: string, f: string)
    requires '#' !in path && '#' !in p
    requires KeyOf(path, fn) == p || KeyOf(path, fn) == KeyOf(p, f)
    ensures path == p && (fn == "" || fn == f)
  {
    KeyOfParts(path, fn);
    KeyOfParts(p, f);
    KeyOfParts(p, "");
  }

  lemma NamedRowMatched(m: Model, arts: Artifacts, row: Row, path: string, fn: string, q: Pattern)
    requires WellFormed(m) && Unhashed(m, KeyOf(path, fn)) && '#' !in path && SelectsSite(q, path, fn)
    requires RowNames(m, arts, row, KeyOf(path, fn))
    ensures RowMatched(m, row, q)
  {
    var c :| c in RowCitations(m, row) && Counts(m, arts, c.path, c.ambiguous)
             && (KeyOf(path, fn) == c.path || KeyOf(path, fn) == KeyOf(c.path, c.fn));
    var name := RowCited(m, row, c);
    UnhashedSite(m, KeyOf(path, fn), c.path, if KeyOf(path, fn) == c.path then "" else c.fn);
    SameKeyParts(path, fn, c.path, c.fn);
    assert SiteMatched(c, q);
  }

  lemma NamedFindingMatched(m: Model, f: Finding, path: string, fn: string, q: Pattern)
    requires WellFormed(m) && Unhashed(m, KeyOf(path, fn)) && '#' !in path && SelectsSite(q, path, fn)
    requires FindingNames(m, f, KeyOf(path, fn))
    ensures FindingMatched(m, f, q)
  {
    var a, p :| a in f.affected && ResolvesTo(m, RawOf(a), p)
                && (KeyOf(path, fn) == p || KeyOf(path, fn) == KeyOf(p, a.fn));
    UnhashedSite(m, KeyOf(path, fn), p, if KeyOf(path, fn) == p then "" else a.fn);
    SameKeyParts(path, fn, p, a.fn);
    assert NormalizePath("") == "";
    assert AffectedMatched(m, a, q);
  }

  lemma NamedPriorityMatched(m: Model, arts: Artifacts, p: Priority, path: string, fn: string, q: Pattern)
    requires WellFormed(m) && Unhashed(m, KeyOf(path, fn)) && '#' !in path && q.path != "" && SelectsSite(q, path, fn)
    requires PriorityOpen(p) && PriorityNames(m, arts, p, KeyOf(path, fn))
    ensures PriorityMatched(m, p, q)
  {
    var component, c :| component in p.components && c in ComponentCitations(m, component)
                        && Counts(m, arts, c.path, c.ambiguous) && KeyOf(path, fn) == c.path;
    CitedInModel(m, component, c);
    UnhashedSite(m, KeyOf(path, fn), c.path, "");
    SameKeyParts(path, fn, c.path, "");
    assert c.path in TargetsOf(m, p.components);
  }

  lemma CoveredRows(m: Model, arts: Artifacts, path: string, fn: string, q: Pattern, out: seq<RowMatch>)
    requires WellFormed(m) && Unhashed(m, KeyOf(path, fn)) && '#' !in path && SelectsSite(q, path, fn)
    requires RowsAnswered(m, arts.rows, arts.priorities, q, out)
    ensures forall id :: id in Members(m, arts, Surface, KeyOf(path, fn)) ==> exists r :: r in out && r.rowId == id
  {
    forall r | r in arts.rows && RowNames(m, arts, r, KeyOf(path, fn)) ensures exists a :: a in out && a.rowId == r.id {
      NamedRowMatched(m, arts, r, path, fn, q);
      AnsweredRow(m, arts.rows, arts.priorities, q, out, r);
    }
  }

  lemma CoveredFindings(m: Model, arts: Artifacts, path: string, fn: string, q: Pattern)
    requires WellFormed(m) && Unhashed(m, KeyOf(path, fn)) && '#' !in path && SelectsSite(q, path, fn)
    ensures forall id :: id in Members(m, arts, Findings, KeyOf(path, fn)) ==>
            id in FindingsMatched(m, arts.findings, q)
  {
    forall f | f in arts.findings && FindingNames(m, f, KeyOf(path, fn))
      ensures f.id in FindingsMatched(m, arts.findings, q)
    {
      NamedFindingMatched(m, f, path, fn, q);
      AnsweredFinding(m, arts.findings, q, f);
    }
  }

  /** The pattern of a bare key always has a path part. */
  lemma BarePattern(path: string)
    requires '#' !in path && ParsePattern(path).Some?
    ensures ParsePattern(path).value.fn == "" && ParsePattern(path).value.path != ""
  {
    var text := TrimSpace(path);
    TrimmedHash(path);
    assert FnPart(text) == "";
  }

  lemma TrimmedHash(s: string)
    requires '#' !in s
    ensures '#' !in TrimSpace(s)
  {
    if '#' in TrimSpace(s) { TrimmedChar(s, '#'); }
  }

  lemma CoveredPriority(m: Model, arts: Artifacts, path: string, fn: string, q: Pattern, p: Priority)
    requires WellFormed(m) && Unhashed(m, KeyOf(path, fn)) && '#' !in path && Selects(path, fn)
    requires ParsePattern(KeyOf(path, fn)) == Some(q)
    requires p in arts.priorities && PriorityOpen(p) && PriorityNames(m, arts, p, KeyOf(path, fn))
    ensures p.id in OpenMatches(m, arts.priorities, q)
  {
    var component, c :| component in p.components && c in ComponentCitations(m, component)
                        && Counts(m, arts, c.path, c.ambiguous) && KeyOf(path, fn) == c.path;
    CitedInModel(m, component, c);
    UnhashedSite(m, KeyOf(path, fn), c.path, "");
    SameKeyParts(path, fn, c.path, "");
    KeyOfParts(path, fn);
    KeyOfParts(c.path, "");
    BarePattern(path);
    NamedPriorityMatched(m, arts, p, path, fn, q);
    AnsweredPriority(m, arts.priorities, q, p);
  }

  lemma SelectsCovers(m: Model, arts: Artifacts, path: string, fn: string, out: Matches)
    requires WellFormed(m) && Unhashed(m, KeyOf(path, fn)) && '#' !in path && Selects(path, fn)
    requires Answers(m, arts, KeyOf(path, fn), out)
    ensures Covers(m, arts, KeyOf(path, fn), out)
  {
    var q := ParsePattern(KeyOf(path, fn)).value;
    CoveredRows(m, arts, path, fn, q, out.rows);
    CoveredFindings(m, arts, path, fn, q);
    forall p | p in arts.priorities && PriorityOpen(p) && PriorityNames(m, arts, p, KeyOf(path, fn))
      ensures p.id in out.priorities
    {
      CoveredPriority(m, arts, path, fn, q, p);
    }
  }

  lemma ConvergingPath(m: Model, arts: Artifacts, key: string)
    requires WellFormed(m) && Unhashed(m, key) && Converges(m, arts, key)
    ensures PathPart(key) in m.pathSet && '#' !in PathPart(key) && key == KeyOf(PathPart(key), FnPart(key))
  {
    var p, fn := ConvergingSite(m, arts, key);
    UnhashedSite(m, key, p, fn);
    KeyOfParts(p, fn);
  }

  lemma ReportedKeyCovered(m: Model, arts: Artifacts, key: string, out: Matches)
    requires WellFormed(m) && Unhashed(m, key) && Converges(m, arts, key)
    requires Selects(PathPart(key), FnPart(key)) && Answers(m, arts, key, out)
    ensures Covers(m, arts, key, out)
  {
    ConvergingPath(m, arts, key);
    SelectsCovers(m, arts, PathPart(key), FnPart(key), out);
  }

  /** Querying the key of any reported anchor finds all the anchor's rows and findings and
      its open priorities, when the key selects its site and no path with a '#' shares it. */
  lemma QueryCovers(m: Model, arts: Artifacts, anchors: seq<Anchor>, anchor: Anchor, out: Matches)
    requires WellFormed(m) && Unhashed(m, anchor.key) && Reported(m, arts, anchors) && anchor in anchors
    requires Selects(anchor.path, anchor.fn)
    requires Answers(m, arts, anchor.key, out)
    ensures forall id :: id in anchor.rows ==> exists r :: r in out.rows && r.rowId == id
    ensures forall id :: id in anchor.findings ==> id in out.findings
    ensures forall p :: p in arts.priorities && PriorityOpen(p) && PriorityNames(m, arts, p, anchor.key) ==>
              p.id in anchor.priorities && p.id in out.priorities
  {
    ReportedAnchor(m, arts, anchors, anchor);
    ReportedKeyCovered(m, arts, anchor.key, out);
    forall id | id in anchor.rows ensures exists r :: r in out.rows && r.rowId == id {
      ListedId(Members(m, arts, Surface, anchor.key), anchor.rows, id);
    }
    forall id | id in anchor.findings ensures id in out.findings {
      ListedId(Members(m, arts, Findings, anchor.key), anchor.findings, id);
    }
    forall p | p in arts.priorities && PriorityOpen(p) && PriorityNames(m, arts, p, anchor.key)
      ensures p.id in anchor.priorities
    {
      ListedId(Members(m, arts, Plan, anchor.key), anchor.priorities, p.id);
    }
  }

  lemma ReportedAnchor(m: Model, arts: Artifacts, anchors: seq<Anchor>, anchor: Anchor)
    requires Reported(m, arts, anchors) && anchor in anchors
    ensures Converges(m, arts, anchor.key)
    ensures anchor.path == PathPart(anchor.key) && anchor.fn == FnPart(anchor.key)
    ensures anchor.rows == SetKeys(Members(m, arts, Surface, anchor.key))
    ensures anchor.priorities == SetKeys(Members(m, arts, Plan, anchor.key))
    ensures anchor.findings == SetKeys(Members(m, arts, Findings, anchor.key))
  {
    assert anchor == AnchorFor(m, arts, anchor.key);
  }

  lemma ListedId(ids: set<string>, list: seq<string>, id: string)
    requires list == SetKeys(ids)
    ensures id in list <==> id in ids
  {
    assert id in SetOf(list) <==> id in list;
  }

  // ----- Coverage is exactly selection --------------------------------------------------------------

  /** The finding of a witness is matched only by a pattern that selects its site. */
  lemma WitnessMatched(m: Model, name: string, raw: string, fn: string, path: string, q: Pattern)
    requires Sited(m, name, raw, path)
    ensures FindingMatched(m, Witness(name, raw, fn).findings[0], q) ==> SelectsSite(q, path, fn)
  {
    var f := Witness(name, raw, fn).findings[0];
    var a := f.affected[0];
    assert RawOf(a) == raw && ResolvesTo(m, raw, path);
    forall p | ResolvesTo(m, RawOf(a), p) ensures p == path { ResolvesOnce(m, RawOf(a), p, path); }
    assert q.line != 0 ==> !Spans(a.lines, q.line);
  }

  /** What the query answers for a witness. */
  ghost function WitnessAnswer(m: Model, arts: Artifacts, pattern: string): Matches
    requires arts.rows != []
  {
    match ParsePattern(pattern)
    case None => Matches([], [], [])
    case Some(q) => Matches(if RowMatched(m, arts.rows[0], q) then [RowMatch("r", 1, UNDISPOSITIONED, false)]
                            else [], [],
                            FindingsMatched(m, arts.findings, q))
  }

  lemma WitnessAnswered(m: Model, name: string, raw: string, fn: string, pattern: string)
    ensures Answers(m, Witness(name, raw, fn), pattern, WitnessAnswer(m, Witness(name, raw, fn), pattern))
  {
    var arts := Witness(name, raw, fn);
    if ParsePattern(pattern).Some? {
      var q := ParsePattern(pattern).value;
      var out := WitnessAnswer(m, arts, pattern).rows;
      assert arts.rows[..0] == [];
      assert UNDISPOSITIONED !in DISPOSITIONED;
      assert out != [] ==> RowAnswer(arts.rows[0], [], out[0]) && out[..0] == [];
    }
  }

  lemma OneFinding(m: Model, f: Finding, q: Pattern)
    requires !FindingMatched(m, f, q)
    ensures FindingsMatched(m, [f], q) == []
  {
    assert FindingsMatched(m, [], q) == [];
    assert [f][..0] == [];
  }

  lemma UnselectedMisses(m: Model, name: string, raw: string, fn: string, path: string)
    requires Sited(m, name, raw, path) && !Selects(path, fn)
    ensures WitnessAnswer(m, Witness(name, raw, fn), KeyOf(path, fn)).findings == []
  {
    if ParsePattern(KeyOf(path, fn)).Some? {
      var q := ParsePattern(KeyOf(path, fn)).value;
      if FindingMatched(m, Witness(name, raw, fn).findings[0], q) {
        WitnessMatched(m, name, raw, fn, path, q);
      } else {
        OneFinding(m, Witness(name, raw, fn).findings[0], q);
      }
    }
  }

  /** Over all artifacts, the query of a converging key covers the key. */
  ghost predicate AlwaysCovered(m: Model, key: string) {
    forall arts, out :: Converges(m, arts, key) && Answers(m, arts, key, out) ==> Covers(m, arts, key, out)
  }

  lemma UnselectedUncovered(m: Model, name: string, raw: string, fn: string, path: string)
    requires Sited(m, name, raw, path) && !Selects(path, fn)
    ensures !AlwaysCovered(m, KeyOf(path, fn))
  {
    var arts, key := Witness(name, raw, fn), KeyOf(path, fn);
    WitnessConverges(m, name, raw, fn, path);
    WitnessAnswered(m, name, raw, fn, key);
    UnselectedMisses(m, name, raw, fn, path);
    assert "F" !in WitnessAnswer(m, arts, key).findings;
    assert !Covers(m, arts, key, WitnessAnswer(m, arts, key));
  }

  // ----- A path with a '#' is never selected --------------------------------------------------------

  /** A text that starts with its own copy, one '#' further on, holds a '#' behind the copy. */
  lemma {:induction false} HashMarches(r: string, fn: string, j: nat)
    requires fn <= (r + "#") + fn && j < |r| + 1 + |fn| && ((r + "#") + fn)[j] == '#'
    ensures exists i :: |fn| <= i < |r| + 1 + |fn| && ((r + "#") + fn)[i] == '#'
    decreases |fn| - j
  {
    var w := (r + "#") + fn;
    if j < |fn| {
      assert w[|r| + 1 + j] == fn[j] == w[j];
      HashMarches(r, fn, |r| + 1 + j);
    }
  }

  lemma TailChar(f: string, i: nat)
    requires |DropTail(f)| <= i < |f|
    ensures f[i] != '#' && f[i] != '/'
  {
    var k := LastIndex(f, ':');
    if i != k { assert f[i] in f[k + 1..]; }
  }

  lemma DropTailStarts(f: string)
    ensures DropTail(f) <= f
  {
  }

  /** Reading a function part off a text cuts a tail and blanks, and nothing else. */
  lemma CutHasNoHash(s: string, i: nat)
    requires |DropTail(TrimRight(s))| <= i < |s|
    ensures s[i] != '#' && s[i] != '/'
  {
    TrimRightIs(s);
    if i < |TrimRight(s)| {
      TailChar(TrimRight(s), i);
    } else {
      assert GoSpace(s[i]);
    }
  }

  lemma CutStarts(s: string)
    ensures DropTail(TrimRight(s)) <= s
  {
    TrimRightIs(s);
    DropTailStarts(TrimRight(s));
  }

  /** Behind a '#' of the path, a function never reads as itself or as nothing. */
  lemma HashedFunction(r: string, fn: string)
    requires fn != ""
    ensures DropTail(TrimRight((r + "#") + fn)) != "" && DropTail(TrimRight((r + "#") + fn)) != fn
  {
    var w := (r + "#") + fn;
    var g := DropTail(TrimRight(w));
    assert w[|r|] == '#';
    CutStarts(w);
    if fn <= w { HashMarches(r, fn, |r|); }
    forall i: nat | |g| <= i < |w| ensures w[i] != '#' { CutHasNoHash(w, i); }
  }

  lemma {:induction false} TrimLeftBefore(a: string, b: string)
    requires b != "" && !GoSpace(b[0])
    ensures TrimLeft(a + b) == TrimLeft(a) + b
    decreases |a|
  {
    if a == "" {
      assert a + b == b;
    } else if GoSpace(a[0]) {
      assert (a + b)[1..] == a[1..] + b;
      TrimLeftBefore(a[1..], b);
    }
  }

  lemma HashedParts(path: string, g: string)
    requires '#' !in path
    ensures PathPart((path + "#") + g) == path && FnPart((path + "#") + g) == g
  {
    if g == "" {
      HashLast(path);
      assert (path + "#") + "" == path + "#";
    } else {
      AppendAssociative(path, "#", g);
      KeyOfParts(path, g);
    }
  }

  /** The two parts read from a key with a '#' in it. */
  lemma HashedKeyParts(a: string, s: string)
    requires '#' !in a
    ensures PathPart(TrimSpace((a + "#") + s)) == TrimLeft(a) && FnPart(TrimSpace((a + "#") + s)) == TrimRight(s)
    ensures '#' !in TrimLeft(a)
  {
    AppendAssociative(a, "#", s);
    TrimLeftBefore(a, "#" + s);
    AppendAssociative(TrimLeft(a), "#", s);
    var head := TrimLeft(a) + "#";
    assert head[|head| - 1] == '#';
    TrimRightAfter(head, s);
    TrimLeftIs(a);
    if '#' in TrimLeft(a) { SuffixChar(a, TrimLeft(a), '#'); }
    HashedParts(TrimLeft(a), TrimRight(s));
  }

  lemma NormalizedHash(raw: string)
    requires '#' !in raw
    ensures '#' !in NormalizePath(raw)
  {
    var t, r := TrimSpace(Slashes(raw)), NormalizePath(raw);
    NormalizedIsSuffix(raw);
    if '#' in r {
      SuffixChar(t, r, '#');
      TrimmedChar(Slashes(raw), '#');
    }
  }

  lemma SuffixHash(n: string, t: string)
    ensures HasSuffix(n, t) && '#' in t ==> '#' in n
  {
  }

  lemma SlashBehind(path: string, n: string)
    ensures HasSuffix(path, "/" + n) ==>
              |n| < |path| && path[|path| - |n| - 1] == '/' && path[|path| - |n|..] == n
  {
    if HasSuffix(path, "/" + n) {
      var t := path[|path| - |n| - 1..];
      assert t == "/" + n;
      assert t[1..] == n && t[1..] == path[|path| - |n|..];
    }
  }

  /** A text without a '#' that matches a path with one in front of a slash-free rest is empty. */
  lemma HashedPathMatches(n: string, a: string, r: string)
    requires '#' !in n && n != "" && forall i :: 0 <= i < |r| ==> r[i] != '/'
    ensures !PathMatches(n, (a + "#") + r)
  {
    var path := (a + "#") + r;
    var k := |path| - |n|;
    assert path[|a|] == '#' && ("/" + path)[|a| + 1] == '#';
    SuffixHash(n, "/" + path);
    SlashBehind(path, n);
    assert 0 <= k <= |a| ==> path[k..][|a| - k] == '#';
    assert |a| + 1 < k <= |path| ==> path[k - 1] == r[k - 2 - |a|];
  }

  /** A path that holds a '#' is not selected by its own key, nor by a function's. */
  lemma HashNeverSelects(path: string, fn: string)
    requires '#' in path
    ensures !Selects(path, fn)
  {
    var h := FirstIndex(path, '#');
    var a, r := path[..h], path[h + 1..];
    assert path == (a + "#") + r;
    if fn == "" {
      HashedKeyParts(a, r);
      BareHashNeverSelects(path, a, r);
    } else {
      AppendAssociative(a + "#", r, "#" + fn);
      AppendAssociative(r, "#", fn);
      assert KeyOf(path, fn) == (a + "#") + ((r + "#") + fn);
      HashedKeyParts(a, (r + "#") + fn);
      HashedFunction(r, fn);
    }
  }

  lemma BareHashNeverSelects(path: string, a: string, r: string)
    requires path == (a + "#") + r && '#' !in a
    requires PathPart(TrimSpace(path)) == TrimLeft(a) && FnPart(TrimSpace(path)) == TrimRight(r) && '#' !in TrimLeft(a)
    ensures !Selects(path, "")
  {
    if Selects(path, "") {
      var q := ParsePattern(path).value;
      assert DropTail(TrimRight(r)) == "";
      forall i | 0 <= i < |r| ensures r[i] != '/' { CutHasNoHash(r, i); }
      var read := if q.path == NormalizePath(TrimLeft(a)) then TrimLeft(a) else DropTail(TrimLeft(a));
      DropTailStarts(TrimLeft(a));
      NormalizedHash(read);
      HashedPathMatches(q.path, a, r);
    }
  }

  lemma KeySplits(key: string, p: string) returns (f: string)
    requires p == key || p + "#" < key
    ensures KeyOf(p, f) == key
  {
    f := if p == key then "" else key[|p| + 1..];
    if p != key {
      assert key == key[..|p| + 1] + f && key[..|p| + 1] == p + "#";
      AppendAssociative(p, "#", f);
    }
  }

  /** A '#' in a site's path leaves its key uncovered. */
  lemma HashedUncovered(m: Model, contracts: seq<Contract>, machines: seq<string>, key: string)
    requires IndexOf(m, contracts, machines) && !Unhashed(m, key)
    ensures !AlwaysCovered(m, key)
  {
    var p :| p in m.pathSet && '#' in p && (p == key || p + "#" < key);
    var f := KeySplits(key, p);
    HashNeverSelects(p, f);
    var name, raw := SiteOf(m, contracts, machines, p);
    UnselectedUncovered(m, name, raw, f, p);
  }

  /** The query covers the key of a site, whatever the artifacts, exactly when the key selects the
      site and no model path with a '#' has a site with the same key. */
  lemma CoverageExact(m: Model, contracts: seq<Contract>, machines: seq<string>, path: string, fn: string)
    requires IndexOf(m, contracts, machines) && path in m.pathSet
    ensures AlwaysCovered(m, KeyOf(path, fn)) <==> Selects(path, fn) && Unhashed(m, KeyOf(path, fn))
  {
    var key := KeyOf(path, fn);
    if !Unhashed(m, key) {
      HashedUncovered(m, contracts, machines, key);
    } else if Selects(path, fn) {
      UnhashedSite(m, key, path, fn);
      forall arts, out | Converges(m, arts, key) && Answers(m, arts, key, out) ensures Covers(m, arts, key, out) {
        SelectsCovers(m, arts, path, fn, out);
      }
    } else {
      var name, raw := SiteOf(m, contracts, machines, path);
      UnselectedUncovered(m, name, raw, fn, path);
    }
  }

  // ----- Selection read off the path and the function -----------------------------------------------

  /** A text that is its own copy one slash further on holds a slash behind the first copy. */
  lemma {:induction false} SlashMarches(path: string, n: nat, j: nat)
    requires n < |path| && |path| - n - 1 <= j < |path| && path[j] == '/'
    requires forall i :: |path| - n <= i < |path| ==> path[i] == path[i - (|path| - n)]
    ensures exists i :: n <= i < |path| && path[i] == '/'
    decreases |path| - j
  {
    if j < n {
      SlashMarches(path, n, j + (|path| - n));
    }
  }

  /** A text without a slash after its first `n` characters does not end in '/' and those
      characters. */
  lemma NoOwnTail(path: string, n: nat)
    requires n < |path| && forall i :: n <= i < |path| ==> path[i] != '/'
    ensures !HasSuffix(path, "/" + path[..n])
  {
    var t := "/" + path[..n];
    if HasSuffix(path, t) {
      var k := |path| - n;
      assert path[k - 1..] == t;
      assert path[k - 1] == t[0];
      forall i | k <= i < |path| ensures path[i] == path[i - k] {
        assert path[i] == path[k - 1..][i - k + 1] == t[i - k + 1];
      }
      SlashMarches(path, n, k - 1);
    }
  }

  /** A path's ":<digits>" tail, with the blanks in front of it, holds no slash. */
  lemma TailHasNoSlash(path: string, i: int)
    requires DigitTail(path) && |TrimRight(DropTail(path))| <= i < |path|
    ensures path[i] != '/'
  {
    var k := LastIndex(path, ':');
    TrimRightIs(DropTail(path));
    if i < k {
      assert GoSpace(DropTail(path)[i]);
    } else if i > k {
      assert path[i] == path[k + 1..][i - k - 1];
      assert path[i] in path[k + 1..];
    }
  }

  /** The path part read from a normalized path's key matches the path exactly when the path
      has no tail, or is nothing but a tail. */
  lemma PathPartMatches(path: string)
    requires path != "" && NormalizePath(path) == path
    ensures PathMatches(NormalizePath(DropTail(path)), path) <==> !DigitTail(path) || DropTail(path) == ""
    ensures NormalizePath(DropTail(path)) == "" <==> DropTail(path) == ""
  {
    var s := DropTail(path);
    assert s <= path;
    PrefixNormalizes(path, s);
    TrimRightIs(s);
    if DigitTail(path) {
      var n := |TrimRight(s)|;
      assert TrimRight(s) == path[..n];
      forall i | n <= i < |path| ensures path[i] != '/' { TailHasNoSlash(path, i); }
      NoOwnTail(path, n);
    }
  }

  /** A bare path's key selects it exactly when the path has no ":<digits>" tail. */
  lemma BareSelects(path: string)
    requires path != "" && '#' !in path && NormalizePath(path) == path
    ensures Selects(path, "") <==> !DigitTail(path)
  {
    NormalizedHasNoEdges(path);
    KeyTrims(path, "");
    KeyOfParts(path, "");
    PathPartMatches(path);
  }

  lemma PrefixHash(p: string, path: string)
    ensures p + "#" < path ==> '#' in path
  {
    if p + "#" < path { assert path[|p|] == '#'; }
  }

  lemma BareUnhashed(m: Model, path: string)
    requires path in m.pathSet
    ensures Unhashed(m, path) <==> '#' !in path
  {
    forall p: string { PrefixHash(p, path); }
  }

  /** The query of a bare model path covers its anchor, whatever the artifacts, exactly when
      the path has neither a '#' nor a ":<digits>" tail. */
  lemma BareCoverageExact(m: Model, contracts: seq<Contract>, machines: seq<string>, path: string)
    requires IndexOf(m, contracts, machines) && path in m.pathSet && NormalizePath(path) == path
    ensures AlwaysCovered(m, path) <==> '#' !in path && !DigitTail(path)
  {
    CoverageExact(m, contracts, machines, path, "");
    BareUnhashed(m, path);
    if '#' !in path {
      BareSelects(path);
      KeyOfParts(path, "");
    }
  }

  lemma FunctionKeyText(path: string, fn: string)
    requires path != "" && '#' !in path && NormalizePath(path) == path && fn != ""
    ensures TrimSpace(KeyOf(path, fn)) == (path + "#") + TrimRight(fn)
  {
    NormalizedHasNoEdges(path);
    var head := path + "#";
    assert KeyOf(path, fn) == head + fn;
    assert (head + fn)[0] == path[0];
    assert TrimLeft(head + fn) == head + fn;
    assert head[|head| - 1] == '#';
    TrimRightAfter(head, fn);
  }

  /** The text is only a tail that reads as line 0, such as ":0". */
  predicate ZeroTail(s: string) {
    DigitTail(s) && DropTail(s) == "" && TailLine(s) == 0
  }

  /** The function part is read as the function, or not read at all. */
  predicate FunctionReads(fn: string) {
    (!EdgeSpace(fn) && !DigitTail(fn)) || TrimRight(fn) == "" || ZeroTail(TrimRight(fn))
  }

  lemma TrimmedFunction(fn: string)
    ensures var g := TrimRight(fn);
            TailLine(g) == 0 && (DropTail(g) == "" || DropTail(g) == fn) <==> FunctionReads(fn)
    ensures DropTail(TrimRight(fn)) == "" <==>
            TrimRight(fn) == "" || (DigitTail(TrimRight(fn)) && DropTail(TrimRight(fn)) == "")
  {
    var g := TrimRight(fn);
    TrimRightIs(fn);
    TrimShorter(fn);
    if !EdgeSpace(fn) {
      NothingTrimmed(fn);
    }
  }

  lemma NothingTrimmed(s: string)
    requires !EdgeSpace(s)
    ensures TrimRight(s) == s
  {
  }

  /** What is read from a function's key. */
  lemma FunctionPattern(path: string, fn: string)
    requires path != "" && '#' !in path && NormalizePath(path) == path && fn != ""
    ensures var g := TrimRight(fn);
            if TailLine(g) != 0 then ParsePattern(KeyOf(path, fn)).Some? ==>
              ParsePattern(KeyOf(path, fn)).value.line != 0
            else if DropTail(path) == "" && DropTail(g) == "" then ParsePattern(KeyOf(path, fn)).None?
            else ParsePattern(KeyOf(path, fn)) ==
                 Some(Pattern(NormalizePath(DropTail(path)), DropTail(g), TailLine(path)))
  {
    FunctionKeyText(path, fn);
    HashedParts(path, TrimRight(fn));
    PathPartMatches(path);
  }

  /** A function's key selects its site exactly when the function reads as itself or as
      nothing, and the path has no ":<digits>" tail, or is only a zero tail beside a function
      that is still read. */
  lemma FunctionSelects(path: string, fn: string)
    requires path != "" && '#' !in path && NormalizePath(path) == path && fn != ""
    ensures Selects(path, fn) <==>
            FunctionReads(fn) && (!DigitTail(path) || (ZeroTail(path) && DropTail(TrimRight(fn)) != ""))
  {
    FunctionPattern(path, fn);
    TrimmedFunction(fn);
    PathPartMatches(path);
  }

  /** A key that parses back to its parts selects its site. */
  lemma CleanSelects(path: string, fn: string)
    requires path != "" && '#' !in path && Clean(path, fn)
    ensures Selects(path, fn)
  {
    CleanKeyParses(path, fn);
  }

  /** A path with a line number at its end is misread: a finding that is a member of the
      path's own anchor is missed by the query of that anchor's key. */
  lemma DigitTailLosesMembers(m: Model, name: string, raw: string, path: string)
    requires Sited(m, name, raw, path) && NormalizePath(path) == path && '#' !in path && DigitTail(path)
    ensures var arts := Witness(name, raw, "");
            Converges(m, arts, path) && "F" in Members(m, arts, Findings, path)
            && Answers(m, arts, path, WitnessAnswer(m, arts, path)) && WitnessAnswer(m, arts, path).findings == []
  {
    BareSelects(path);
    WitnessConverges(m, name, raw, "", path);
    WitnessAnswered(m, name, raw, "", path);
    UnselectedMisses(m, name, raw, "", path);
  }
}
