/** The order in which the terminal search lists its rows. */
module SearchOrder {
  import opened Ordering
  import opened Findings
  import opened StackSearch
  import opened TerminalSearch
  import SearchMeaning

  // ----- Which of two paths is visited first -----------------------------------------------------

  /** The first id comes before the second in the list. */
  ghost predicate Earlier(ids: seq<string>, a: string, b: string) {
    exists i, j :: 0 <= i < j < |ids| && ids[i] == a && ids[j] == b
  }

  /** Where two paths part: at their start the earlier finding leads, later on the later one does. */
  ghost predicate PartsAt(ids: seq<string>, p: seq<string>, q: seq<string>, k: nat) {
    && k < |p| && k < |q| && p[..k] == q[..k]
    && if k == 0 then Earlier(ids, p[k], q[k]) else Earlier(ids, q[k], p[k])
  }

  ghost predicate Ahead(ids: seq<string>, p: seq<string>, q: seq<string>) {
    exists k: nat :: PartsAt(ids, p, q, k)
  }

  /** A path is visited before its continuations, and otherwise as the point where they part says. */
  ghost predicate VisitedBefore(ids: seq<string>, p: seq<string>, q: seq<string>) {
    p < q || Ahead(ids, p, q)
  }

  lemma AheadExtends(ids: seq<string>, p: seq<string>, q: seq<string>, longerP: seq<string>, longerQ: seq<string>)
    requires Ahead(ids, p, q) && p <= longerP && q <= longerQ
    ensures Ahead(ids, longerP, longerQ)
  {
    var k: nat :| PartsAt(ids, p, q, k);
    assert longerP[..k] == p[..k] && longerQ[..k] == q[..k];
    assert PartsAt(ids, longerP, longerQ, k);
  }

  // ----- The stack ------------------------------------------------------------------------------

  function IdsOf(nodes: seq<Node>): (r: seq<string>)
    ensures |r| == |nodes| && forall i :: 0 <= i < |r| ==> r[i] == nodes[i].id
  {
    seq(|nodes|, i requires 0 <= i < |nodes| => nodes[i].id)
  }

  /** A frame nearer the top of the stack is ahead of the ones below it. */
  ghost predicate Layered(ids: seq<string>, stack: seq<Frame>) {
    forall i, j :: 0 <= i < j < |stack| ==> Ahead(ids, stack[j].path, stack[i].path)
  }

  /** The frames pushed for `f` from the first `n` nodes, in the order of the nodes. */
  ghost predicate PushedFor(nodes: seq<Node>, f: Frame, n: nat, pushed: seq<Frame>)
    requires n <= |nodes|
  {
    && (forall i :: 0 <= i < |pushed| ==>
          pushed[i].path == f.path + [pushed[i].cur] && exists u :: 0 <= u < n && nodes[u].id == pushed[i].cur)
    && forall i, j :: 0 <= i < j < |pushed| ==> Earlier(IdsOf(nodes), pushed[i].cur, pushed[j].cur)
  }

  lemma PushedStep(nodes: seq<Node>, f: Frame, n: nat, pushed: seq<Frame>)
    requires n < |nodes| && PushedFor(nodes, f, n, pushed)
    ensures PushedFor(nodes, f, n + 1, pushed)
    ensures PushedFor(nodes, f, n + 1, pushed + [Step(f, nodes[n])])
  {
    var more := pushed + [Step(f, nodes[n])];
    forall i | 0 <= i < |pushed| ensures Earlier(IdsOf(nodes), pushed[i].cur, nodes[n].id) {
      assert pushed[i].path == f.path + [pushed[i].cur];
      var u :| 0 <= u < n && nodes[u].id == pushed[i].cur;
      assert IdsOf(nodes)[u] == pushed[i].cur && IdsOf(nodes)[n] == nodes[n].id;
    }
  }

  lemma {:induction false} PushedInOrder(nodes: seq<Node>, f: Frame, n: nat)
    requires n <= |nodes|
    ensures PushedFor(nodes, f, n, PushNext(nodes[..n], f))
  {
    if n > 0 {
      PushedInOrder(nodes, f, n - 1);
      assert nodes[..n][..n - 1] == nodes[..n - 1];
      PushedStep(nodes, f, n - 1, PushNext(nodes[..n - 1], f));
    }
  }

  lemma SiblingsPart(ids: seq<string>, path: seq<string>, a: string, b: string)
    requires path != [] && Earlier(ids, a, b)
    ensures Ahead(ids, path + [b], path + [a])
  {
    assert (path + [b])[..|path|] == path == (path + [a])[..|path|];
    assert PartsAt(ids, path + [b], path + [a], |path|);
  }

  lemma ExpandLayered(nodes: seq<Node>, maxDepth: int, f: Frame)
    requires f.path != []
    ensures Layered(IdsOf(nodes), Expand(nodes, maxDepth, f))
    ensures forall g :: g in Expand(nodes, maxDepth, f) ==> f.path < g.path
  {
    var ids, pushed := IdsOf(nodes), Expand(nodes, maxDepth, f);
    if |f.path| < maxDepth {
      PushedInOrder(nodes, f, |nodes|);
      assert nodes[..|nodes|] == nodes;
      forall i, j | 0 <= i < j < |pushed| ensures Ahead(ids, pushed[j].path, pushed[i].path) {
        SiblingsPart(ids, f.path, pushed[i].cur, pushed[j].cur);
      }
    }
  }

  ghost predicate Started(stack: seq<Frame>) {
    forall f :: f in stack ==> f.path != []
  }

  /** Popping the top frame and pushing its successors keeps the stack layered. */
  lemma LayersKept(ids: seq<string>, below: seq<Frame>, f: Frame, pushed: seq<Frame>)
    requires Layered(ids, below + [f]) && Layered(ids, pushed) && forall g :: g in pushed ==> f.path < g.path
    ensures Layered(ids, below + pushed)
  {
    var stack, next := below + [f], below + pushed;
    forall i, j | 0 <= i < j < |next| ensures Ahead(ids, next[j].path, next[i].path) {
      if j < |below| {
        assert next[j] == stack[j] && next[i] == stack[i];
      } else if i < |below| {
        assert next[j] == pushed[j - |below|] && next[j] in pushed;
        assert stack[i] == next[i] && stack[|below|] == f;
        AheadExtends(ids, f.path, next[i].path, next[j].path, next[i].path);
      } else {
        assert next[j] == pushed[j - |below|] && next[i] == pushed[i - |below|];
      }
    }
  }

  /** Every frame popped continues a frame of the stack. */
  ghost predicate Continues(stack: seq<Frame>, g: Frame) {
    exists f :: f in stack && f.path <= g.path
  }

  ghost predicate InOrder(ids: seq<string>, todo: seq<Frame>) {
    forall a, b :: 0 <= a < b < |todo| ==> VisitedBefore(ids, todo[a].path, todo[b].path)
  }

  lemma FirstIsAhead(ids: seq<string>, below: seq<Frame>, f: Frame, pushed: seq<Frame>, g: Frame)
    requires Layered(ids, below + [f]) && (forall h :: h in pushed ==> f.path < h.path)
    requires Continues(below + pushed, g)
    ensures VisitedBefore(ids, f.path, g.path)
  {
    var h :| h in below + pushed && h.path <= g.path;
    if h !in pushed {
      var i :| 0 <= i < |below| && below[i] == h;
      assert (below + [f])[i] == h && (below + [f])[|below|] == f;
      AheadExtends(ids, f.path, h.path, f.path, g.path);
    }
  }

  lemma ContinuesBelow(below: seq<Frame>, f: Frame, pushed: seq<Frame>, g: Frame)
    requires (forall h :: h in pushed ==> f.path < h.path) && Continues(below + pushed, g)
    ensures Continues(below + [f], g)
  {
    var h :| h in below + pushed && h.path <= g.path;
    if h in pushed {
      assert f in below + [f] && f.path <= g.path;
    } else {
      assert h in below + [f];
    }
  }

  /** The frames are popped in the order of their paths. */
  lemma {:induction false} PoppedInOrder(nodes: seq<Node>, maxDepth: int, stack: seq<Frame>, todo: seq<Frame>)
    requires Run(nodes, maxDepth, stack, todo) && Layered(IdsOf(nodes), stack) && Started(stack)
    ensures InOrder(IdsOf(nodes), todo)
    ensures forall g :: g in todo ==> Continues(stack, g)
    decreases |todo|
  {
    if stack != [] {
      RunPop(nodes, maxDepth, stack, todo);
      var ids, f, below := IdsOf(nodes), Top(stack), Below(stack);
      var pushed, rest := Expand(nodes, maxDepth, f), todo[1..];
      SplitLast(stack);
      ExpandLayered(nodes, maxDepth, f);
      LayersKept(ids, below, f, pushed);
      PoppedInOrder(nodes, maxDepth, below + pushed, rest);
      forall g | g in rest ensures VisitedBefore(ids, f.path, g.path) && Continues(stack, g) {
        FirstIsAhead(ids, below, f, pushed, g);
        ContinuesBelow(below, f, pushed, g);
      }
      forall a, b | 0 <= a < b < |todo| ensures VisitedBefore(ids, todo[a].path, todo[b].path) {
        assert todo[b] == rest[b - 1] && todo[b] in rest;
        if a > 0 { assert todo[a] == rest[a - 1]; }
      }
      forall g | g in todo ensures Continues(stack, g) {
        assert g == f || g in rest;
        assert f in stack && f.path <= f.path;
      }
    }
  }

  // ----- The starts ----------------------------------------------------------------------------------

  lemma {:induction false} StartsInOrder(nodes: seq<Node>, base: set<string>, k: nat)
    requires k <= |nodes|
    ensures var stack := Starts(nodes, base, k);
            && Started(stack) && Layered(IdsOf(nodes), stack)
            && forall f :: f in stack ==> |f.path| == 1 && exists u :: k <= u < |nodes| && nodes[u].id == f.path[0]
    decreases |nodes| - k
  {
    if k < |nodes| && nodes[k].required <= base {
      StartsInOrder(nodes, base, k + 1);
      var rest, f, ids := Starts(nodes, base, k + 1), Start(base, nodes[k]), IdsOf(nodes);
      forall i | 0 <= i < |rest| ensures Ahead(ids, f.path, rest[i].path) {
        assert rest[i] in rest;
        var u :| k + 1 <= u < |nodes| && nodes[u].id == rest[i].path[0];
        assert ids[k] == nodes[k].id && ids[u] == nodes[u].id;
        assert f.path[..0] == rest[i].path[..0];
        assert PartsAt(ids, f.path, rest[i].path, 0);
      }
    } else if k < |nodes| {
      StartsInOrder(nodes, base, k + 1);
      assert Starts(nodes, base, k) == Starts(nodes, base, k + 1);
    }
  }

  // ----- The rows --------------------------------------------------------------------------------------

  ghost predicate RowsOrdered(ids: seq<string>, rows: seq<Row>) {
    forall i, j :: 0 <= i < j < |rows| ==> VisitedBefore(ids, rows[i].path, rows[j].path)
  }

  lemma {:induction false} EmittedInOrder(nodes: seq<Node>, ids: seq<string>, minLength: int, frames: seq<Frame>,
                                          seen: set<string>)
    requires InOrder(ids, frames)
    ensures RowsOrdered(ids, Emit(nodes, minLength, frames, seen))
    ensures forall r :: r in Emit(nodes, minLength, frames, seen) ==> exists f :: f in frames && f.path == r.path
    decreases |frames|
  {
    if frames != [] {
      var f, rest, key := frames[0], frames[1..], Join(frames[0].path, '|');
      assert frames == [f] + rest;
      assert InOrder(ids, rest) by {
        forall a, b | 0 <= a < b < |rest| ensures VisitedBefore(ids, rest[a].path, rest[b].path) {
          assert rest[a] == frames[a + 1] && rest[b] == frames[b + 1];
        }
      }
      forall g | g in rest ensures VisitedBefore(ids, f.path, g.path) {
        var b :| 0 <= b < |rest| && rest[b] == g;
        assert frames[b + 1] == g;
      }
      if Emits(nodes, minLength, f) && key !in seen {
        EmittedInOrder(nodes, ids, minLength, rest, seen + {key});
        RowsPush(ids, RowOf(nodes, f), Emit(nodes, minLength, rest, seen + {key}), rest);
      } else {
        EmittedInOrder(nodes, ids, minLength, rest, seen);
      }
    }
  }

  lemma RowsPush(ids: seq<string>, row: Row, rows: seq<Row>, frames: seq<Frame>)
    requires RowsOrdered(ids, rows) && (forall g :: g in frames ==> VisitedBefore(ids, row.path, g.path))
    requires forall r :: r in rows ==> exists f :: f in frames && f.path == r.path
    ensures RowsOrdered(ids, [row] + rows)
  {
    var all := [row] + rows;
    forall i, j | 0 <= i < j < |all| ensures VisitedBefore(ids, all[i].path, all[j].path) {
      assert all[j] == rows[j - 1] && all[j] in rows;
      if i > 0 { assert all[i] == rows[i - 1]; }
    }
  }

  /** The rows before ranking stand in the order in which their paths are visited. */
  lemma EnumeratedInOrder(nodes: seq<Node>, base: set<string>, maxDepth: int, minLength: int)
    ensures RowsOrdered(IdsOf(nodes), Enumerated(nodes, base, maxDepth, minLength))
  {
    var stack := Starts(nodes, base, 0);
    var todo := Order(nodes, maxDepth, stack);
    StartsInOrder(nodes, base, 0);
    PoppedInOrder(nodes, maxDepth, stack, todo);
    EmittedInOrder(nodes, IdsOf(nodes), minLength, todo, {});
  }

  // ----- The ranking ----------------------------------------------------------------------------------

  /** Strictly better, or as good and visited before. */
  ghost predicate Outranks(ids: seq<string>, a: Row, b: Row) {
    || |a.path| < |b.path| || (|a.path| == |b.path| && a.totalRequired < b.totalRequired)
    || (|a.path| == |b.path| && a.totalRequired == b.totalRequired && VisitedBefore(ids, a.path, b.path))
  }

  ghost predicate AllOutrank(ids: seq<string>, rows: seq<Row>) {
    forall i, j :: 0 <= i < j < |rows| ==> Outranks(ids, rows[i], rows[j])
  }

  lemma {:induction false} InsertOutranks(ids: seq<string>, x: Row, rows: seq<Row>)
    requires AllOutrank(ids, rows) && forall r :: r in rows ==> VisitedBefore(ids, x.path, r.path)
    ensures AllOutrank(ids, Insert(RowLeq, x, rows))
    ensures forall r :: r in Insert(RowLeq, x, rows) <==> r == x || r in rows
    decreases |rows|
  {
    if rows != [] {
      assert rows == [rows[0]] + rows[1..];
      if RowLeq(x, rows[0]) {
        forall j | 0 <= j < |rows| ensures Outranks(ids, x, rows[j]) {
          assert rows[j] in rows;
          if j > 0 { assert Outranks(ids, rows[0], rows[j]); }
        }
        FrontOutranks(ids, x, rows);
      } else {
        TailOutranks(ids, rows);
        InsertOutranks(ids, x, rows[1..]);
        var rest := Insert(RowLeq, x, rows[1..]);
        forall j | 0 <= j < |rest| ensures Outranks(ids, rows[0], rest[j]) {
          assert rest[j] in rest;
          if rest[j] != x {
            var k :| 0 <= k < |rows[1..]| && rows[1..][k] == rest[j];
            assert rows[k + 1] == rest[j];
          }
        }
        FrontOutranks(ids, rows[0], rest);
      }
    }
  }

  lemma FrontOutranks(ids: seq<string>, x: Row, rows: seq<Row>)
    requires AllOutrank(ids, rows) && forall j :: 0 <= j < |rows| ==> Outranks(ids, x, rows[j])
    ensures AllOutrank(ids, [x] + rows)
  {
    var all := [x] + rows;
    forall i, j | 0 <= i < j < |all| ensures Outranks(ids, all[i], all[j]) {
      assert all[j] == rows[j - 1];
      if i > 0 { assert all[i] == rows[i - 1]; }
    }
  }

  lemma TailOutranks(ids: seq<string>, rows: seq<Row>)
    requires rows != [] && AllOutrank(ids, rows)
    ensures AllOutrank(ids, rows[1..])
  {
    forall i, j | 0 <= i < j < |rows[1..]| ensures Outranks(ids, rows[1..][i], rows[1..][j]) {
      assert rows[1..][i] == rows[i + 1] && rows[1..][j] == rows[j + 1];
    }
  }

  lemma {:induction false} SortOutranks(ids: seq<string>, rows: seq<Row>)
    requires RowsOrdered(ids, rows)
    ensures AllOutrank(ids, Sort(RowLeq, rows)) && forall r :: r in Sort(RowLeq, rows) <==> r in rows
    decreases |rows|
  {
    if rows != [] {
      var x, rest := rows[0], rows[1..];
      assert rows == [x] + rest;
      forall i, j | 0 <= i < j < |rest| ensures VisitedBefore(ids, rest[i].path, rest[j].path) {
        assert rest[i] == rows[i + 1] && rest[j] == rows[j + 1];
      }
      SortOutranks(ids, rest);
      forall r | r in Sort(RowLeq, rest) ensures VisitedBefore(ids, x.path, r.path) {
        var j :| 0 <= j < |rest| && rest[j] == r;
        assert rows[j + 1] == r;
      }
      InsertOutranks(ids, x, Sort(RowLeq, rest));
    }
  }

  // ----- Load order -----------------------------------------------------------------------------------

  lemma EarlierTail(ids: seq<string>, a: string, b: string)
    requires ids != [] && Earlier(ids[1..], a, b)
    ensures Earlier(ids, a, b)
  {
    var i, j :| 0 <= i < j < |ids[1..]| && ids[1..][i] == a && ids[1..][j] == b;
    assert ids[i + 1] == a && ids[j + 1] == b;
  }

  lemma {:induction false} NodesInLoadOrder(all: seq<Finding>, hyp: bool, a: string, b: string)
    requires Earlier(IdsOf(NodesOf(all, hyp)), a, b)
    ensures Earlier(SearchMeaning.Ids(all), a, b)
    decreases |all|
  {
    var ids, rest := SearchMeaning.Ids(all), NodesOf(all[1..], hyp);
    assert ids[1..] == SearchMeaning.Ids(all[1..]);
    var nodes := NodesOf(all, hyp);
    var i, j :| 0 <= i < j < |nodes| && nodes[i].id == a && nodes[j].id == b;
    if Admitted(all[0], hyp) && i == 0 {
      assert nodes[j] == rest[j - 1];
      var k := NodePosition(all[1..], hyp, j - 1);
      assert ids[0] == a && ids[k + 1] == b;
    } else {
      var first := if Admitted(all[0], hyp) then 1 else 0;
      assert nodes[i] == rest[i - first] && nodes[j] == rest[j - first];
      assert IdsOf(rest)[i - first] == a && IdsOf(rest)[j - first] == b;
      NodesInLoadOrder(all[1..], hyp, a, b);
      EarlierTail(ids, a, b);
    }
  }

  lemma {:induction false} NodePosition(all: seq<Finding>, hyp: bool, j: nat) returns (k: nat)
    requires j < |NodesOf(all, hyp)|
    ensures k < |all| && all[k].id == NodesOf(all, hyp)[j].id
    decreases |all|
  {
    if Admitted(all[0], hyp) && j == 0 {
      k := 0;
    } else {
      k := NodePosition(all[1..], hyp, if Admitted(all[0], hyp) then j - 1 else j);
      k := k + 1;
    }
  }

  lemma VisitedInLoadOrder(all: seq<Finding>, hyp: bool, p: seq<string>, q: seq<string>)
    requires VisitedBefore(IdsOf(NodesOf(all, hyp)), p, q)
    ensures VisitedBefore(SearchMeaning.Ids(all), p, q)
  {
    if !(p < q) {
      var k: nat :| PartsAt(IdsOf(NodesOf(all, hyp)), p, q, k);
      if k == 0 {
        NodesInLoadOrder(all, hyp, p[k], q[k]);
      } else {
        NodesInLoadOrder(all, hyp, q[k], p[k]);
      }
      assert PartsAt(SearchMeaning.Ids(all), p, q, k);
    }
  }

  lemma OutranksInLoadOrder(all: seq<Finding>, hyp: bool, a: Row, b: Row)
    requires Outranks(IdsOf(NodesOf(all, hyp)), a, b)
    ensures Outranks(SearchMeaning.Ids(all), a, b)
  {
    if VisitedBefore(IdsOf(NodesOf(all, hyp)), a.path, b.path) { VisitedInLoadOrder(all, hyp, a.path, b.path); }
  }

  /** The whole order of the rows returned: by length, then by cost, and ties in the order in which
      the search visits their paths, by the order the findings were loaded in. */
  lemma RowsRanked(all: seq<Finding>, baseline: Option<set<string>>, maxDepth: int, minLength: int, hyp: bool)
    ensures AllOutrank(SearchMeaning.Ids(all), TerminalChains(all, baseline, maxDepth, minLength, hyp))
  {
    var nodes := NodesOf(all, hyp);
    var rows := Enumerated(nodes, BaseOf(baseline), maxDepth, minLength);
    var kept := TerminalChains(all, baseline, maxDepth, minLength, hyp);
    EnumeratedInOrder(nodes, BaseOf(baseline), maxDepth, minLength);
    SortOutranks(IdsOf(nodes), rows);
    forall i, j | 0 <= i < j < |kept| ensures Outranks(SearchMeaning.Ids(all), kept[i], kept[j]) {
      assert kept[i] == Ranked(rows)[i] && kept[j] == Ranked(rows)[j];
      OutranksInLoadOrder(all, hyp, kept[i], kept[j]);
    }
  }

  /** And a row the cap cuts off is outranked by each row returned. */
  lemma CutRowOutranked(all: seq<Finding>, baseline: Option<set<string>>, maxDepth: int, minLength: int, hyp: bool,
                        r: Row, q: Row)
    requires var kept := TerminalChains(all, baseline, maxDepth, minLength, hyp); r in kept && q !in kept
    requires q in Enumerated(NodesOf(all, hyp), BaseOf(baseline), maxDepth, minLength)
    ensures Outranks(SearchMeaning.Ids(all), r, q)
  {
    var nodes := NodesOf(all, hyp);
    var rows := Enumerated(nodes, BaseOf(baseline), maxDepth, minLength);
    var kept, ranked := TerminalChains(all, baseline, maxDepth, minLength, hyp), Ranked(rows);
    EnumeratedInOrder(nodes, BaseOf(baseline), maxDepth, minLength);
    SortOutranks(IdsOf(nodes), rows);
    var i :| 0 <= i < |kept| && kept[i] == r;
    var j :| 0 <= j < |ranked| && ranked[j] == q;
    assert ranked[i] == r;
    assert forall k :: 0 <= k < |kept| ==> kept[k] == ranked[k] && kept[k] != q;
    assert j >= |kept|;
    OutranksInLoadOrder(all, hyp, r, q);
  }
}
