/** `Convergences`: every canonical key that at least two of the three stores name. */
module Convergence {
  import opened Ordering
  import opened Text
  import opened AnchorModel

  datatype Sibling = Sibling(contract: string, line: int)

  datatype Row = Row(id: string, contract: string, consumer: string, consumerLine: int, asserter: string,
                     asserterLine: int,
                     siblings: seq<Sibling>, tier: int)

  /** `components` is the list with its non-strings and empty strings already dropped;
      `probeRow` is `probe.row_id` when the priority has a probe object. */
  datatype Priority = Priority(id: string, components: seq<string>, status: string, probeRow: Option<string>)

  datatype Affected = Affected(path: string, file: string, fn: string, lines: seq<int>)

  datatype Finding = Finding(id: string, affected: seq<Affected>)

  datatype Artifacts = Artifacts(rows: seq<Row>, priorities: seq<Priority>, findings: seq<Finding>)

  datatype Store = Surface | Plan | Findings

  datatype Anchor = Anchor(key: string, path: string, fn: string, stores: seq<string>,
                           rows: seq<string>, priorities: seq<string>, findings: seq<string>)

  // ----- What each artifact cites ------------------------------------------------------

  datatype RowCite = RowCite(path: string, ambiguous: bool, fn: string, line: int)

  function WithSite(cites: seq<Citation>, fn: string, line: int): (r: seq<RowCite>)
    ensures forall c :: c in r <==> Citation(c.path, c.ambiguous) in cites && c.fn == fn && c.line == line
  {
    if cites == [] then []
    else
      assert cites == [cites[0]] + cites[1..];
      [RowCite(cites[0].path, cites[0].ambiguous, fn, line)] + WithSite(cites[1..], fn, line)
  }

  function SiteCitations(m: Model, name: string, fn: string, line: int): seq<RowCite> {
    if name == "" || (fn == "" && line == 0) then [] else WithSite(NameCitations(m, name), fn, line)
  }

  function SiblingCitations(m: Model, siblings: seq<Sibling>): seq<RowCite> {
    if siblings == [] then []
    else SiteCitations(m, siblings[0].contract, "", siblings[0].line) + SiblingCitations(m, siblings[1..])
  }

  /** The row's anchor coordinates: consumer and asserter sites, then the siblings. */
  function RowCitations(m: Model, row: Row): seq<RowCite> {
    SiteCitations(m, row.contract, row.consumer, row.consumerLine)
    + SiteCitations(m, row.contract, row.asserter, row.asserterLine)
    + SiblingCitations(m, row.siblings)
  }

  function RawOf(a: Affected): string {
    if a.path != "" then a.path else a.file
  }

  function KeyOf(path: string, fn: string): string {
    if fn == "" then path else path + ("#" + fn)
  }

  // ----- The relational definition --------------------------------------------------------

  /** Some finding's affected file resolves to the path. */
  ghost predicate Pinned(m: Model, findings: seq<Finding>, path: string) {
    exists f, a :: f in findings && a in f.affected && ResolvesTo(m, RawOf(a), path)
  }

  ghost predicate Counts(m: Model, arts: Artifacts, path: string, ambiguous: bool) {
    path != "" && (ambiguous ==> Pinned(m, arts.findings, path))
  }

  ghost predicate RowNames(m: Model, arts: Artifacts, row: Row, key: string) {
    && row.id != ""
    && exists c :: c in RowCitations(m, row) && Counts(m, arts, c.path, c.ambiguous)
                   && (key == c.path || key == KeyOf(c.path, c.fn))
  }

  ghost predicate PriorityNames(m: Model, arts: Artifacts, p: Priority, key: string) {
    && p.id != ""
    && exists component, c :: component in p.components && c in ComponentCitations(m, component)
                              && Counts(m, arts, c.path, c.ambiguous) && key == c.path
  }

  ghost predicate FindingNames(m: Model, f: Finding, key: string) {
    && f.id != ""
    && exists a, path :: a in f.affected && ResolvesTo(m, RawOf(a), path) && (key == path || key == KeyOf(path, a.fn))
  }

  /** The member ids a store contributes to a key. */
  ghost function Members(m: Model, arts: Artifacts, store: Store, key: string): set<string> {
    match store
    case Surface => set r | r in arts.rows && RowNames(m, arts, r, key) :: r.id
    case Plan => set p | p in arts.priorities && PriorityNames(m, arts, p, key) :: p.id
    case Findings => set f | f in arts.findings && FindingNames(m, f, key) :: f.id
  }

  function StoreName(store: Store): string {
    match store
    case Surface => "surface"
    case Plan => "plan"
    case Findings => "findings"
  }

  ghost function NamingOf(surface: set<string>, plan: set<string>, findings: set<string>): set<Store> {
    (if surface != {} then {Surface} else {}) + (if plan != {} then {Plan} else {})
      + (if findings != {} then {Findings} else {})
  }

  /** The stores that contribute to a key. */
  ghost function Naming(m: Model, arts: Artifacts, key: string): set<Store> {
    NamingOf(Members(m, arts, Surface, key), Members(m, arts, Plan, key), Members(m, arts, Findings, key))
  }

  /** At least two of the three stores contribute a member. */
  ghost predicate Converges(m: Model, arts: Artifacts, key: string) {
    exists a: Store, b: Store :: a != b && Members(m, arts, a, key) != {} && Members(m, arts, b, key) != {}
  }

  function PathPart(key: string): string {
    key[..FirstIndex(key, '#')]
  }

  function FnPart(key: string): string {
    var i := FirstIndex(key, '#');
    if i < |key| then key[i + 1..] else ""
  }

  ghost function StoreNames(stores: set<Store>): seq<string> {
    SetKeys(set s | s in stores :: StoreName(s))
  }

  ghost function AnchorOf(key: string, surface: set<string>, plan: set<string>, findings: set<string>): Anchor {
    Anchor(key, PathPart(key), FnPart(key), StoreNames(NamingOf(surface, plan, findings)),
           SetKeys(surface), SetKeys(plan), SetKeys(findings))
  }

  /** The anchor of a key: its parts, the stores that name it and the ids they contribute. */
  ghost function AnchorFor(m: Model, arts: Artifacts, key: string): Anchor {
    AnchorOf(key, Members(m, arts, Surface, key), Members(m, arts, Plan, key), Members(m, arts, Findings, key))
  }

  predicate AnchorLeq(a: Anchor, b: Anchor) {
    if a.path != b.path then Leq(a.path, b.path) else Leq(a.fn, b.fn)
  }

  /** The output the definition calls for: one anchor per converging key, with exactly the
      contributing ids, ordered by path and then function. */
  ghost predicate Reported(m: Model, arts: Artifacts, out: seq<Anchor>) {
    && Distinct(out)
    && (forall a :: a in out <==> Converges(m, arts, a.key) && a == AnchorFor(m, arts, a.key))
    && SortedBy(AnchorLeq, out)
  }

  // ----- The accumulator ---------------------------------------------------------------------

  datatype Acc = Acc(stores: set<Store>, rows: seq<string>, priorities: seq<string>, findings: seq<string>)

  /** One contribution: a store names a key through a member. */
  datatype Note = Note(store: Store, key: string, member: string)

  function ListOf(a: Acc, store: Store): seq<string> {
    match store
    case Surface => a.rows
    case Plan => a.priorities
    case Findings => a.findings
  }

  ghost function NotedMembers(notes: set<Note>, store: Store, key: string): set<string> {
    set n | n in notes && n.store == store && n.key == key :: n.member
  }

  ghost predicate AccMatches(a: Acc, notes: set<Note>, key: string) {
    forall store: Store ::
      && Distinct(ListOf(a, store))
      && SetOf(ListOf(a, store)) == NotedMembers(notes, store, key)
      && (store in a.stores <==> NotedMembers(notes, store, key) != {})
  }

  /** The map holds exactly the contributions noted so far. */
  ghost predicate Holds(accs: map<string, Acc>, notes: set<Note>) {
    && (forall key :: key in accs ==> AccMatches(accs[key], notes, key))
    && (forall n :: n in notes ==> n.key in accs)
  }

  method AppendUnique(list: seq<string>, member: string) returns (r: seq<string>)
    requires Distinct(list) && member != ""
    ensures Distinct(r) && SetOf(r) == SetOf(list) + {member}
  {
    if member in list {
      assert member in SetOf(list);
      return list;
    }
    SetOfPush(list, member);
    r := list + [member];
  }

  lemma NotedPush(notes: set<Note>, n: Note, store: Store, key: string)
    ensures NotedMembers(notes + {n}, store, key) ==
            NotedMembers(notes, store, key) + if n.store == store && n.key == key then {n.member} else {}
  {
  }

  lemma OtherKey(a: Acc, notes: set<Note>, n: Note, key: string)
    requires key != n.key && AccMatches(a, notes, key)
    ensures AccMatches(a, notes + {n}, key)
  {
    forall store: Store ensures NotedMembers(notes + {n}, store, key) == NotedMembers(notes, store, key) {
      NotedPush(notes, n, store, key);
    }
  }

  lemma NewKey(notes: set<Note>, key: string)
    requires forall n :: n in notes ==> n.key != key
    ensures AccMatches(Acc({}, [], [], []), notes, key)
  {
    forall store: Store ensures NotedMembers(notes, store, key) == {} {}
  }

  function Updated(a: Acc, store: Store, list: seq<string>): Acc {
    match store
    case Surface => Acc(a.stores + {Surface}, list, a.priorities, a.findings)
    case Plan => Acc(a.stores + {Plan}, a.rows, list, a.findings)
    case Findings => Acc(a.stores + {Findings}, a.rows, a.priorities, list)
  }

  lemma UpdatedMatches(a: Acc, notes: set<Note>, n: Note, list: seq<string>)
    requires AccMatches(a, notes, n.key)
    requires Distinct(list) && SetOf(list) == SetOf(ListOf(a, n.store)) + {n.member}
    ensures AccMatches(Updated(a, n.store, list), notes + {n}, n.key)
  {
    var b := Updated(a, n.store, list);
    forall store: Store
      ensures Distinct(ListOf(b, store)) && SetOf(ListOf(b, store)) == NotedMembers(notes + {n}, store, n.key)
      ensures store in b.stores <==> NotedMembers(notes + {n}, store, n.key) != {}
    {
      NotedPush(notes, n, store, n.key);
      if store == n.store {
        assert ListOf(b, store) == list;
        assert n.member in NotedMembers(notes + {n}, store, n.key);
      } else {
        assert ListOf(b, store) == ListOf(a, store);
      }
    }
  }

  /** The `add` closure, for a citation that counts. */
  method AddNote(accs0: map<string, Acc>, ghost notes: set<Note>, n: Note) returns (accs: map<string, Acc>)
    requires Holds(accs0, notes) && n.member != ""
    ensures Holds(accs, notes + {n})
  {
    var a := Acc({}, [], [], []);
    if n.key in accs0 {
      a := accs0[n.key];
    } else {
      NewKey(notes, n.key);
    }
    var list := AppendUnique(ListOf(a, n.store), n.member);
    UpdatedMatches(a, notes, n, list);
    accs := accs0[n.key := Updated(a, n.store, list)];
    forall key | key in accs ensures AccMatches(accs[key], notes + {n}, key) {
      if key != n.key {
        OtherKey(accs0[key], notes, n, key);
      }
    }
  }

  // ----- The three passes ---------------------------------------------------------------------

  /** The note one citation of a row, priority or finding makes, bare or with a function. */
  ghost predicate CiteNote(m: Model, arts: Artifacts, store: Store, id: string, path: string, ambiguous: bool,
                           fn: string, n: Note)
  {
    id != "" && Counts(m, arts, path, ambiguous) && n.store == store && n.member == id
      && (n.key == path || n.key == KeyOf(path, fn))
  }

  ghost predicate PinnedSet(m: Model, arts: Artifacts, pinned: set<string>) {
    forall p :: p in pinned <==> Pinned(m, arts.findings, p)
  }

  /** Two calls of the `add` closure: the bare path, then the function-qualified key. */
  method AddCitation(accs0: map<string, Acc>, ghost notes0: set<Note>, m: Model, ghost arts: Artifacts,
                     pinned: set<string>,
                     store: Store, id: string, path: string, ambiguous: bool, fn: string)
    returns (accs: map<string, Acc>, ghost notes: set<Note>)
    requires Holds(accs0, notes0) && PinnedSet(m, arts, pinned)
    ensures Holds(accs, notes)
    ensures forall n :: n in notes <==> n in notes0 || CiteNote(m, arts, store, id, path, ambiguous, fn, n)
  {
    accs, notes := accs0, notes0;
    if path == "" || id == "" || (ambiguous && path !in pinned) {
      return;
    }
    accs := AddNote(accs, notes, Note(store, path, id));
    notes := notes + {Note(store, path, id)};
    accs := AddNote(accs, notes, Note(store, KeyOf(path, fn), id));
    notes := notes + {Note(store, KeyOf(path, fn), id)};
  }

  ghost predicate RowNote(m: Model, arts: Artifacts, row: Row, cites: seq<RowCite>, n: Note) {
    exists c :: c in cites && CiteNote(m, arts, Surface, row.id, c.path, c.ambiguous, c.fn, n)
  }

  lemma RowNotePush(m: Model, arts: Artifacts, row: Row, cites: seq<RowCite>, c: RowCite)
    ensures forall n :: RowNote(m, arts, row, cites + [c], n) <==>
              RowNote(m, arts, row, cites, n) || CiteNote(m, arts, Surface, row.id, c.path, c.ambiguous, c.fn, n)
  {
    assert forall d :: d in cites + [c] <==> d in cites || d == c;
  }

  method AddRow(accs0: map<string, Acc>, ghost notes0: set<Note>, m: Model, ghost arts: Artifacts, pinned: set<string>,
                row: Row)
    returns (accs: map<string, Acc>, ghost notes: set<Note>)
    requires Holds(accs0, notes0) && PinnedSet(m, arts, pinned)
    ensures Holds(accs, notes)
    ensures forall n :: n in notes <==> n in notes0 || RowNote(m, arts, row, RowCitations(m, row), n)
  {
    accs, notes := accs0, notes0;
    var cites := RowCitations(m, row);
    for i := 0 to |cites|
      invariant Holds(accs, notes)
      invariant forall n :: n in notes <==> n in notes0 || RowNote(m, arts, row, cites[..i], n)
    {
      var c := cites[i];
      assert cites[..i + 1] == cites[..i] + [c];
      RowNotePush(m, arts, row, cites[..i], c);
      accs, notes := AddCitation(accs, notes, m, arts, pinned, Surface, row.id, c.path, c.ambiguous, c.fn);
    }
    assert cites[..|cites|] == cites;
  }

  ghost predicate ComponentNote(m: Model, arts: Artifacts, p: Priority, cites: seq<Citation>, n: Note) {
    exists c :: c in cites && CiteNote(m, arts, Plan, p.id, c.path, c.ambiguous, "", n)
  }

  method AddComponent(accs0: map<string, Acc>, ghost notes0: set<Note>, m: Model, ghost arts: Artifacts,
                      pinned: set<string>,
                      p: Priority, component: string)
    returns (accs: map<string, Acc>, ghost notes: set<Note>)
    requires Holds(accs0, notes0) && PinnedSet(m, arts, pinned)
    ensures Holds(accs, notes)
    ensures forall n :: n in notes <==> n in notes0 || ComponentNote(m, arts, p, ComponentCitations(m, component), n)
  {
    accs, notes := accs0, notes0;
    var cites := ComponentCitations(m, component);
    for i := 0 to |cites|
      invariant Holds(accs, notes)
      invariant forall n :: n in notes <==> n in notes0 || ComponentNote(m, arts, p, cites[..i], n)
    {
      assert cites[..i + 1] == cites[..i] + [cites[i]];
      accs, notes := AddCitation(accs, notes, m, arts, pinned, Plan, p.id, cites[i].path, cites[i].ambiguous, "");
    }
    assert cites[..|cites|] == cites;
  }

  ghost predicate PriorityNote(m: Model, arts: Artifacts, p: Priority, components: seq<string>, n: Note) {
    exists component :: component in components && ComponentNote(m, arts, p, ComponentCitations(m, component), n)
  }

  method AddPriority(accs0: map<string, Acc>, ghost notes0: set<Note>, m: Model, ghost arts: Artifacts,
                     pinned: set<string>, p: Priority)
    returns (accs: map<string, Acc>, ghost notes: set<Note>)
    requires Holds(accs0, notes0) && PinnedSet(m, arts, pinned)
    ensures Holds(accs, notes)
    ensures forall n :: n in notes <==> n in notes0 || PriorityNote(m, arts, p, p.components, n)
  {
    accs, notes := accs0, notes0;
    for i := 0 to |p.components|
      invariant Holds(accs, notes)
      invariant forall n :: n in notes <==> n in notes0 || PriorityNote(m, arts, p, p.components[..i], n)
    {
      assert p.components[..i + 1] == p.components[..i] + [p.components[i]];
      accs, notes := AddComponent(accs, notes, m, arts, pinned, p, p.components[i]);
    }
    assert p.components[..|p.components|] == p.components;
  }

  ghost predicate AffectedNote(m: Model, arts: Artifacts, f: Finding, affected: seq<Affected>, n: Note) {
    exists a, path :: a in affected && ResolvesTo(m, RawOf(a), path)
      && CiteNote(m, arts, Findings, f.id, path, false, a.fn, n)
  }

  lemma AffectedPush(m: Model, arts: Artifacts, f: Finding, affected: seq<Affected>, a: Affected, n: Note)
    ensures AffectedNote(m, arts, f, affected + [a], n) <==>
            AffectedNote(m, arts, f, affected, n) ||
            exists path :: ResolvesTo(m, RawOf(a), path) && CiteNote(m, arts, Findings, f.id, path, false, a.fn, n)
  {
    assert forall b :: b in affected + [a] <==> b in affected || b == a;
  }

  method AddFinding(accs0: map<string, Acc>, ghost notes0: set<Note>, m: Model, ghost arts: Artifacts,
                    pinned: set<string>, f: Finding)
    returns (accs: map<string, Acc>, ghost notes: set<Note>)
    requires WellFormed(m) && Holds(accs0, notes0) && PinnedSet(m, arts, pinned)
    ensures Holds(accs, notes)
    ensures forall n :: n in notes <==> n in notes0 || AffectedNote(m, arts, f, f.affected, n)
  {
    accs, notes := accs0, notes0;
    for i := 0 to |f.affected|
      invariant Holds(accs, notes)
      invariant forall n :: n in notes <==> n in notes0 || AffectedNote(m, arts, f, f.affected[..i], n)
    {
      var a := f.affected[i];
      assert f.affected[..i + 1] == f.affected[..i] + [a];
      forall n { AffectedPush(m, arts, f, f.affected[..i], a, n); }
      var path := ResolveFilePath(m, RawOf(a));
      if path == "" {
        continue;
      }
      forall p | ResolvesTo(m, RawOf(a), p) ensures p == path { ResolvesOnce(m, RawOf(a), p, path); }
      accs, notes := AddCitation(accs, notes, m, arts, pinned, Findings, f.id, path, false, a.fn);
    }
    assert f.affected[..|f.affected|] == f.affected;
  }

  method PinPaths(m: Model, ghost arts: Artifacts, findings: seq<Finding>) returns (pinned: set<string>)
    requires WellFormed(m) && findings == arts.findings
    ensures PinnedSet(m, arts, pinned)
  {
    pinned := {};
    for i := 0 to |findings|
      invariant forall p :: p in pinned <==> Pinned(m, findings[..i], p)
    {
      assert findings[..i + 1] == findings[..i] + [findings[i]];
      ghost var before := pinned;
      var affected := findings[i].affected;
      for j := 0 to |affected|
        invariant forall p :: p in pinned <==>
                  p in before || exists a :: a in affected[..j] && ResolvesTo(m, RawOf(a), p)
      {
        assert affected[..j + 1] == affected[..j] + [affected[j]];
        var path := ResolveFilePath(m, RawOf(affected[j]));
        if path != "" {
          forall p | ResolvesTo(m, RawOf(affected[j]), p)
            ensures p == path
          {
            ResolvesOnce(m, RawOf(affected[j]), p, path);
          }
          pinned := pinned + {path};
        }
      }
      assert affected[..|affected|] == affected;
    }
    assert findings[..|findings|] == findings;
  }

  // ----- From notes to members --------------------------------------------------------------------

  ghost predicate Noted(m: Model, arts: Artifacts, n: Note) {
    || (exists r :: r in arts.rows && RowNote(m, arts, r, RowCitations(m, r), n))
    || (exists p :: p in arts.priorities && PriorityNote(m, arts, p, p.components, n))
    || (exists f :: f in arts.findings && AffectedNote(m, arts, f, f.affected, n))
  }

  lemma SurfaceMembers(m: Model, arts: Artifacts, key: string, id: string)
    requires WellFormed(m)
    ensures Noted(m, arts, Note(Surface, key, id)) <==> id in Members(m, arts, Surface, key)
  {
    var n := Note(Surface, key, id);
    forall r: Row ensures RowNote(m, arts, r, RowCitations(m, r), n) <==> RowNames(m, arts, r, key) && r.id == id {}
  }

  lemma PlanMembers(m: Model, arts: Artifacts, key: string, id: string)
    requires WellFormed(m)
    ensures Noted(m, arts, Note(Plan, key, id)) <==> id in Members(m, arts, Plan, key)
  {
    var n := Note(Plan, key, id);
    forall p: Priority
      ensures PriorityNote(m, arts, p, p.components, n) <==> PriorityNames(m, arts, p, key) && p.id == id
    {
      if PriorityNote(m, arts, p, p.components, n) {
        var component :| component in p.components && ComponentNote(m, arts, p, ComponentCitations(m, component), n);
      }
      if PriorityNames(m, arts, p, key) && p.id == id {
        var component, c :| component in p.components && c in ComponentCitations(m, component)
                            && Counts(m, arts, c.path, c.ambiguous) && key == c.path;
        assert ComponentNote(m, arts, p, ComponentCitations(m, component), n);
      }
    }
  }

  lemma FindingMembers(m: Model, arts: Artifacts, key: string, id: string)
    requires WellFormed(m)
    ensures Noted(m, arts, Note(Findings, key, id)) <==> id in Members(m, arts, Findings, key)
  {
    var n := Note(Findings, key, id);
    forall f: Finding ensures AffectedNote(m, arts, f, f.affected, n) <==> FindingNames(m, f, key) && f.id == id {}
  }

  ghost predicate Complete(m: Model, arts: Artifacts, notes: set<Note>) {
    forall n :: n in notes <==> Noted(m, arts, n)
  }

  lemma NotesAreMembers(m: Model, arts: Artifacts, notes: set<Note>, store: Store, key: string)
    requires WellFormed(m) && Complete(m, arts, notes)
    ensures NotedMembers(notes, store, key) == Members(m, arts, store, key)
  {
    forall id ensures id in NotedMembers(notes, store, key) <==> id in Members(m, arts, store, key) {
      assert id in NotedMembers(notes, store, key) <==> Note(store, key, id) in notes;
      match store
      case Surface => SurfaceMembers(m, arts, key, id);
      case Plan => PlanMembers(m, arts, key, id);
      case Findings => FindingMembers(m, arts, key, id);
    }
  }

  // ----- The answer -----------------------------------------------------------------------------------

  method NameStores(stores: set<Store>) returns (names: seq<string>)
    ensures names == StoreNames(stores)
  {
    names := SortedKeys(set s | s in stores :: StoreName(s));
  }

  lemma SortedIds(list: seq<string>)
    requires Distinct(list)
    ensures Ascending(list) == SetKeys(SetOf(list))
  {
    SortedListing(list);
    SetKeysUnique(Ascending(list), SetOf(list));
  }

  lemma ListedMembers(a: Acc, m: Model, arts: Artifacts, notes: set<Note>, store: Store, key: string)
    requires WellFormed(m) && AccMatches(a, notes, key) && Complete(m, arts, notes)
    ensures Ascending(ListOf(a, store)) == SetKeys(Members(m, arts, store, key))
    ensures store in a.stores <==> Members(m, arts, store, key) != {}
  {
    SortedIds(ListOf(a, store));
    NotesAreMembers(m, arts, notes, store, key);
  }

  lemma ListedStores(a: Acc, m: Model, arts: Artifacts, notes: set<Note>, key: string)
    requires WellFormed(m) && AccMatches(a, notes, key) && Complete(m, arts, notes)
    ensures a.stores == Naming(m, arts, key)
  {
    ListedMembers(a, m, arts, notes, Surface, key);
    ListedMembers(a, m, arts, notes, Plan, key);
    ListedMembers(a, m, arts, notes, Findings, key);
    StoresAre(a.stores, Members(m, arts, Surface, key), Members(m, arts, Plan, key), Members(m, arts, Findings, key));
  }

  lemma StoresAre(stores: set<Store>, surface: set<string>, plan: set<string>, findings: set<string>)
    requires Surface in stores <==> surface != {}
    requires Plan in stores <==> plan != {}
    requires Findings in stores <==> findings != {}
    ensures stores == NamingOf(surface, plan, findings)
  {
    forall store: Store ensures store in stores <==> store in NamingOf(surface, plan, findings) {
      match store case Surface => case Plan => case Findings =>
    }
  }

  method MakeAnchor(key: string, a: Acc, ghost m: Model, ghost arts: Artifacts, ghost notes: set<Note>)
    returns (anchor: Anchor)
    requires WellFormed(m) && AccMatches(a, notes, key) && Complete(m, arts, notes)
    ensures anchor == AnchorFor(m, arts, key)
  {
    var names := NameStores(a.stores);
    var rows := SortStrings(a.rows);
    var priorities := SortStrings(a.priorities);
    var findings := SortStrings(a.findings);
    ListedStores(a, m, arts, notes, key);
    ListedMembers(a, m, arts, notes, Surface, key);
    ListedMembers(a, m, arts, notes, Plan, key);
    ListedMembers(a, m, arts, notes, Findings, key);
    anchor := Anchor(key, PathPart(key), FnPart(key), names, rows, priorities, findings);
  }

  lemma TwoStores(m: Model, arts: Artifacts, a: Acc, notes: set<Note>, key: string)
    requires WellFormed(m) && AccMatches(a, notes, key) && Complete(m, arts, notes)
    ensures |a.stores| >= 2 <==> Converges(m, arts, key)
  {
    forall store: Store ensures store in a.stores <==> Members(m, arts, store, key) != {} {
      NotesAreMembers(m, arts, notes, store, key);
    }
    TwoElements(a.stores);
  }

  lemma TwoElements<T>(s: set<T>)
    ensures |s| >= 2 <==> exists a, b :: a in s && b in s && a != b
  {
    if |s| >= 2 {
      var a :| a in s;
      assert |s - {a}| >= 1;
      var b :| b in s - {a};
    }
    if a, b :| a in s && b in s && a != b {
      assert s == {a, b} + (s - {a, b});
    }
  }

  /** Listing the converging accumulators, in whatever order the map yields its keys. */
  method CollectAnchors(accs: map<string, Acc>, ghost m: Model, ghost arts: Artifacts, ghost notes: set<Note>)
    returns (out: seq<Anchor>)
    requires WellFormed(m) && Holds(accs, notes) && Complete(m, arts, notes)
    ensures Distinct(out)
    ensures forall a :: a in out <==> Converges(m, arts, a.key) && a == AnchorFor(m, arts, a.key)
  {
    out := [];
    var todo := accs.Keys;
    while todo != {}
      invariant todo <= accs.Keys
      invariant Distinct(out)
      invariant forall a :: a in out <==>
                a.key in accs.Keys - todo && Converges(m, arts, a.key) && a == AnchorFor(m, arts, a.key)
      decreases todo
    {
      var key :| key in todo;
      todo := todo - {key};
      TwoStores(m, arts, accs[key], notes, key);
      if |accs[key].stores| < 2 {
        continue;
      }
      var anchor := MakeAnchor(key, accs[key], m, arts, notes);
      assert anchor.key == key;
      assert anchor !in out;
      out := out + [anchor];
    }
    forall key | Converges(m, arts, key) ensures key in accs { ConvergingNoted(accs, m, arts, notes, key); }
  }

  lemma ConvergingNoted(accs: map<string, Acc>, m: Model, arts: Artifacts, notes: set<Note>, key: string)
    requires WellFormed(m) && Holds(accs, notes) && Complete(m, arts, notes) && Converges(m, arts, key)
    ensures key in accs
  {
    var store: Store :| Members(m, arts, store, key) != {};
    NotesAreMembers(m, arts, notes, store, key);
    var id :| id in NotedMembers(notes, store, key);
    assert Note(store, key, id) in notes;
  }

  lemma AnchorLeqIsPreorder()
    ensures TotalPreorder(AnchorLeq)
  {
    LeqIsTotalOrder();
    forall a, b, c | AnchorLeq(a, b) && AnchorLeq(b, c) ensures AnchorLeq(a, c) {
      LeqTransitive(a.path, b.path, c.path);
    }
  }

  /** `Convergences`. */
  method Convergences(m: Model, rows: seq<Row>, priorities: seq<Priority>, findings: seq<Finding>)
    returns (out: seq<Anchor>)
    requires WellFormed(m)
    ensures Reported(m, Artifacts(rows, priorities, findings), out)
  {
    ghost var arts := Artifacts(rows, priorities, findings);
    var accs, notes := Accumulate(m, rows, priorities, findings);
    var listed := CollectAnchors(accs, m, arts, notes);
    AnchorLeqIsPreorder();
    SortCorrect(AnchorLeq, listed);
    out := Sort(AnchorLeq, listed);
    DistinctByMultiset(listed, out);
    forall a ensures a in out <==> a in listed { assert a in SetOf(out) <==> a in SetOf(listed); }
  }

  method Accumulate(m: Model, rows: seq<Row>, priorities: seq<Priority>, findings: seq<Finding>)
    returns (accs: map<string, Acc>, ghost notes: set<Note>)
    requires WellFormed(m)
    ensures Holds(accs, notes)
    ensures forall n :: n in notes <==> Noted(m, Artifacts(rows, priorities, findings), n)
  {
    ghost var arts := Artifacts(rows, priorities, findings);
    var pinned := PinPaths(m, arts, findings);
    accs, notes := map[], {};
    for i := 0 to |rows|
      invariant Holds(accs, notes)
      invariant forall n :: n in notes <==> exists r :: r in rows[..i] && RowNote(m, arts, r, RowCitations(m, r), n)
    {
      assert rows[..i + 1] == rows[..i] + [rows[i]];
      accs, notes := AddRow(accs, notes, m, arts, pinned, rows[i]);
    }
    assert rows[..|rows|] == rows;
    ghost var fromRows := notes;
    for i := 0 to |priorities|
      invariant Holds(accs, notes)
      invariant forall n :: n in notes <==>
                n in fromRows || exists p :: p in priorities[..i] && PriorityNote(m, arts, p, p.components, n)
    {
      assert priorities[..i + 1] == priorities[..i] + [priorities[i]];
      accs, notes := AddPriority(accs, notes, m, arts, pinned, priorities[i]);
    }
    assert priorities[..|priorities|] == priorities;
    ghost var fromBoth := notes;
    for i := 0 to |findings|
      invariant Holds(accs, notes)
      invariant forall n :: n in notes <==>
                n in fromBoth || exists f :: f in findings[..i] && AffectedNote(m, arts, f, f.affected, n)
    {
      assert findings[..i + 1] == findings[..i] + [findings[i]];
      accs, notes := AddFinding(accs, notes, m, arts, pinned, findings[i]);
    }
    assert findings[..|findings|] == findings;
  }
}
