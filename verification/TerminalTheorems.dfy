/** What the terminal search finds, in what order, and what the cap drops. */
module TerminalTheorems {
  import opened Ordering
  import opened Findings
  import opened StackSearch
  import Capabilities
  import opened TerminalSearch

  // ----- Reachable terminal paths, with no search in sight -----------------------------

  ghost predicate UniqueIds(nodes: seq<Node>) {
    forall i, j :: 0 <= i < j < |nodes| ==> nodes[i].id != nodes[j].id
  }

  ghost predicate HasNode(nodes: seq<Node>, id: string) {
    exists n :: n in nodes && n.id == id
  }

  ghost function GrantsOf(nodes: seq<Node>, p: seq<string>): set<string> {
    if p == [] then {} else GrantsOf(nodes, p[..|p| - 1]) + NodeAt(nodes, p[|p| - 1]).granted
  }

  /** The attacker can execute the whole path: every member's requirements are in the
      baseline or granted by earlier members. */
  ghost predicate Reachable(nodes: seq<Node>, base: set<string>, p: seq<string>) {
    && p != []
    && Distinct(p)
    && (forall i :: 0 <= i < |p| ==> HasNode(nodes, p[i]))
    && (forall i :: 0 <= i < |p| ==> NodeAt(nodes, p[i]).required <= base + GrantsOf(nodes, p[..i]))
  }

  ghost predicate EndsTerminal(nodes: seq<Node>, p: seq<string>)
    requires p != []
  {
    exists cap :: cap in NodeAt(nodes, p[|p| - 1]).granted && Capabilities.IsTerminal(cap)
  }

  ghost predicate TerminalPath(nodes: seq<Node>, base: set<string>, p: seq<string>) {
    Reachable(nodes, base, p) && EndsTerminal(nodes, p)
  }

  /** The path lengths a depth limit admits: single findings are always looked at. */
  ghost predicate WithinDepth(maxDepth: int, p: seq<string>) {
    |p| <= 1 || |p| <= maxDepth
  }

  ghost function CapitalOf(nodes: seq<Node>, p: seq<string>): Capital
    requires p != []
  {
    if |p| == 1 then NodeAt(nodes, p[0]).capital
    else AddCapital(CapitalOf(nodes, p[..|p| - 1]), NodeAt(nodes, p[|p| - 1]).capital)
  }

  // ----- The node table ------------------------------------------------------------------

  lemma {:induction false} NodeAtMember(nodes: seq<Node>, n: Node)
    requires UniqueIds(nodes) && n in nodes
    ensures NodeAt(nodes, n.id) == n
  {
    if nodes[0] != n {
      assert n in nodes[1..];
      NodeAtMember(nodes[1..], n);
    }
  }

  lemma {:induction false} NodesExact(all: seq<Finding>, hyp: bool)
    ensures forall n :: n in NodesOf(all, hyp) <==>
              exists f :: f in all && Admitted(f, hyp) && n == Node(f.id, Grants(f), Needs(f), CapitalNode(f.attacker))
    ensures WellKeyed(all) ==> UniqueIds(NodesOf(all, hyp))
  {
    if all != [] {
      var rest := NodesOf(all[1..], hyp);
      NodesExact(all[1..], hyp);
      assert all == [all[0]] + all[1..];
      if WellKeyed(all) {
        forall j | 0 <= j < |rest| ensures rest[j].id != all[0].id {
          assert rest[j] in rest;
        }
      }
    }
  }

  // ----- Frames are determined by their paths -----------------------------------------------

  ghost function FrameOf(nodes: seq<Node>, base: set<string>, p: seq<string>): Frame
    requires p != []
  {
    Frame(p[|p| - 1], p, base + GrantsOf(nodes, p), CapitalOf(nodes, p))
  }

  ghost predicate Good(nodes: seq<Node>, base: set<string>, f: Frame) {
    Reachable(nodes, base, f.path) && f == FrameOf(nodes, base, f.path)
  }

  lemma ExtendIff(nodes: seq<Node>, base: set<string>, p: seq<string>, id: string)
    requires Reachable(nodes, base, p)
    ensures Reachable(nodes, base, p + [id]) <==>
            id !in p && HasNode(nodes, id) && NodeAt(nodes, id).required <= base + GrantsOf(nodes, p)
  {
    var q := p + [id];
    assert forall i :: 0 <= i < |p| ==> q[i] == p[i] && q[..i] == p[..i];
    assert q[..|p|] == p && q[|p|] == id;
  }

  lemma StepIsFrame(nodes: seq<Node>, base: set<string>, f: Frame, n: Node)
    requires UniqueIds(nodes) && Good(nodes, base, f) && n in nodes
    ensures Step(f, n) == FrameOf(nodes, base, f.path + [n.id])
  {
    NodeAtMember(nodes, n);
    var q := f.path + [n.id];
    assert q[..|q| - 1] == f.path;
    assert base + GrantsOf(nodes, f.path) + n.granted == base + (GrantsOf(nodes, f.path) + n.granted);
  }

  /** A frame pushed in one turn is a one-finding extension of the path. */
  lemma ExpandSound(nodes: seq<Node>, base: set<string>, maxDepth: int, f: Frame, g: Frame) returns (n: Node)
    requires UniqueIds(nodes) && Good(nodes, base, f) && g in Expand(nodes, maxDepth, f)
    ensures n in nodes && |f.path| < maxDepth && g.path == f.path + [n.id] && Good(nodes, base, g)
  {
    PushNextMembers(nodes, f, g);
    n :| n in nodes && CanFollow(f, n) && g == Step(f, n);
    NodeAtMember(nodes, n);
    ExtendIff(nodes, base, f.path, n.id);
    StepIsFrame(nodes, base, f, n);
  }

  /** Every one-finding extension of a path short of the depth limit is pushed. */
  lemma ExpandComplete(nodes: seq<Node>, base: set<string>, maxDepth: int, f: Frame, id: string)
    requires UniqueIds(nodes) && Good(nodes, base, f)
    requires |f.path| < maxDepth && Reachable(nodes, base, f.path + [id])
    ensures FrameOf(nodes, base, f.path + [id]) in Expand(nodes, maxDepth, f)
  {
    ExtendIff(nodes, base, f.path, id);
    var n :| n in nodes && n.id == id;
    NodeAtMember(nodes, n);
    StepIsFrame(nodes, base, f, n);
    PushNextMembers(nodes, f, Step(f, n));
  }

  // ----- A run visits exactly the paths that extend its stack ---------------------------------

  ghost predicate AllGood(nodes: seq<Node>, base: set<string>, maxDepth: int, stack: seq<Frame>) {
    forall f :: f in stack ==> Good(nodes, base, f) && WithinDepth(maxDepth, f.path)
  }

  lemma StackStep(nodes: seq<Node>, base: set<string>, maxDepth: int, stack: seq<Frame>)
    requires UniqueIds(nodes) && AllGood(nodes, base, maxDepth, stack) && stack != []
    ensures AllGood(nodes, base, maxDepth, Below(stack) + Expand(nodes, maxDepth, Top(stack)))
  {
    forall g | g in Below(stack) + Expand(nodes, maxDepth, Top(stack))
      ensures Good(nodes, base, g) && WithinDepth(maxDepth, g.path)
    {
      if g in Expand(nodes, maxDepth, Top(stack)) {
        var n := ExpandSound(nodes, base, maxDepth, Top(stack), g);
      }
    }
  }

  lemma {:induction false} RunSound(nodes: seq<Node>, base: set<string>, maxDepth: int, stack: seq<Frame>,
                                    todo: seq<Frame>)
    requires UniqueIds(nodes) && AllGood(nodes, base, maxDepth, stack) && Run(nodes, maxDepth, stack, todo)
    ensures AllGood(nodes, base, maxDepth, todo)
    decreases |todo|
  {
    if stack != [] {
      RunPop(nodes, maxDepth, stack, todo);
      StackStep(nodes, base, maxDepth, stack);
      RunSound(nodes, base, maxDepth, Below(stack) + Expand(nodes, maxDepth, Top(stack)), todo[1..]);
      forall f | f in todo ensures Good(nodes, base, f) && WithinDepth(maxDepth, f.path) {
        assert f == todo[0] || f in todo[1..];
      }
    }
  }

  ghost predicate Pending(stack: seq<Frame>, p: seq<string>) {
    exists f :: f in stack && f.path <= p
  }

  lemma ReachablePrefix(nodes: seq<Node>, base: set<string>, p: seq<string>, n: nat)
    requires Reachable(nodes, base, p) && 0 < n <= |p|
    ensures Reachable(nodes, base, p[..n])
  {
    var q := p[..n];
    assert forall i :: 0 <= i < n ==> q[i] == p[i] && q[..i] == p[..i];
  }

  lemma NextPending(nodes: seq<Node>, base: set<string>, maxDepth: int, f: Frame, p: seq<string>)
    requires UniqueIds(nodes) && Good(nodes, base, f)
    requires Reachable(nodes, base, p) && WithinDepth(maxDepth, p) && f.path < p
    ensures Pending(Expand(nodes, maxDepth, f), p)
  {
    var n := |f.path|;
    assert f.path + [p[n]] == p[..n + 1];
    ReachablePrefix(nodes, base, p, n + 1);
    ExpandComplete(nodes, base, maxDepth, f, p[n]);
    assert FrameOf(nodes, base, p[..n + 1]) in Expand(nodes, maxDepth, f);
  }

  lemma StillPending(nodes: seq<Node>, base: set<string>, maxDepth: int, stack: seq<Frame>, p: seq<string>)
    requires UniqueIds(nodes) && AllGood(nodes, base, maxDepth, stack) && stack != []
    requires Reachable(nodes, base, p) && WithinDepth(maxDepth, p) && Pending(stack, p)
    ensures Top(stack).path == p || Pending(Below(stack) + Expand(nodes, maxDepth, Top(stack)), p)
  {
    SplitLast(stack);
    assert Top(stack) in stack;
    if Top(stack).path < p {
      NextPending(nodes, base, maxDepth, Top(stack), p);
    }
  }

  lemma {:induction false} RunComplete(nodes: seq<Node>, base: set<string>, maxDepth: int, stack: seq<Frame>,
                                       todo: seq<Frame>, p: seq<string>)
    requires UniqueIds(nodes) && AllGood(nodes, base, maxDepth, stack) && Run(nodes, maxDepth, stack, todo)
    requires Reachable(nodes, base, p) && WithinDepth(maxDepth, p) && Pending(stack, p)
    ensures FrameOf(nodes, base, p) in todo
    decreases |todo|
  {
    assert stack != [];
    RunPop(nodes, maxDepth, stack, todo);
    StackStep(nodes, base, maxDepth, stack);
    StillPending(nodes, base, maxDepth, stack, p);
    if Top(stack).path == p {
      assert Good(nodes, base, Top(stack));
    } else {
      RunComplete(nodes, base, maxDepth, Below(stack) + Expand(nodes, maxDepth, Top(stack)), todo[1..], p);
    }
  }

  lemma {:induction false} StartsExact(nodes: seq<Node>, base: set<string>, k: nat)
    requires k <= |nodes|
    ensures forall f :: f in Starts(nodes, base, k) <==>
                        exists i :: k <= i < |nodes| && nodes[i].required <= base && f == Start(base, nodes[i])
    decreases |nodes| - k
  {
    if k < |nodes| {
      StartsExact(nodes, base, k + 1);
    }
  }

  lemma StartIsFrame(nodes: seq<Node>, base: set<string>, n: Node)
    requires UniqueIds(nodes) && n in nodes
    ensures Start(base, n) == FrameOf(nodes, base, [n.id])
    ensures Reachable(nodes, base, [n.id]) <==> n.required <= base
  {
    NodeAtMember(nodes, n);
    var p := [n.id];
    assert p[..0] == [] && GrantsOf(nodes, p[..0]) == {};
    assert base + {} == base && {} + n.granted == n.granted;
    assert HasNode(nodes, n.id);
  }

  /** The whole search pops exactly the frames of the reachable simple paths within the
      depth limit. */
  lemma OrderExact(nodes: seq<Node>, base: set<string>, maxDepth: int)
    requires UniqueIds(nodes)
    ensures forall f :: f in Order(nodes, maxDepth, Starts(nodes, base, 0)) <==>
                        Good(nodes, base, f) && WithinDepth(maxDepth, f.path)
  {
    var stack, todo := Starts(nodes, base, 0), Order(nodes, maxDepth, Starts(nodes, base, 0));
    StartsExact(nodes, base, 0);
    forall f | f in stack ensures Good(nodes, base, f) && WithinDepth(maxDepth, f.path) {
      var i :| 0 <= i < |nodes| && nodes[i].required <= base && f == Start(base, nodes[i]);
      StartIsFrame(nodes, base, nodes[i]);
    }
    RunSound(nodes, base, maxDepth, stack, todo);
    forall f: Frame | Good(nodes, base, f) && WithinDepth(maxDepth, f.path) ensures f in todo {
      StartPending(nodes, base, f.path);
      RunComplete(nodes, base, maxDepth, stack, todo, f.path);
    }
  }

  lemma StartPending(nodes: seq<Node>, base: set<string>, p: seq<string>)
    requires UniqueIds(nodes) && Reachable(nodes, base, p)
    ensures Pending(Starts(nodes, base, 0), p)
  {
    ReachablePrefix(nodes, base, p, 1);
    assert p[..1] == [p[0]];
    var n :| n in nodes && n.id == p[0];
    StartIsFrame(nodes, base, n);
    StartsExact(nodes, base, 0);
    var stack := Starts(nodes, base, 0);
    assert Start(base, n) in stack;
  }

  // ----- No path is visited twice ---------------------------------------------------------------

  /** No frame's path begins another's. */
  ghost predicate Apart(stack: seq<Frame>) {
    forall i, j :: 0 <= i < |stack| && 0 <= j < |stack| && i != j ==> !(stack[i].path <= stack[j].path)
  }

  ghost predicate DistinctPaths(frames: seq<Frame>) {
    forall i, j :: 0 <= i < j < |frames| ==> frames[i].path != frames[j].path
  }

  lemma {:induction false} PushNextDistinct(nodes: seq<Node>, f: Frame)
    requires UniqueIds(nodes)
    ensures DistinctPaths(PushNext(nodes, f))
    ensures forall g :: g in PushNext(nodes, f) ==> |g.path| == |f.path| + 1 && f.path <= g.path
  {
    if nodes != [] {
      var init, n := nodes[..|nodes| - 1], nodes[|nodes| - 1];
      PushNextDistinct(init, f);
      forall g | g in PushNext(init, f) ensures g.path != f.path + [n.id] {
        PushNextMembers(init, f, g);
        var m :| m in init && CanFollow(f, m) && g == Step(f, m);
        var i :| 0 <= i < |init| && init[i] == m;
        assert nodes[i].id != n.id;
        assert (f.path + [m.id])[|f.path|] == m.id && (f.path + [n.id])[|f.path|] == n.id;
      }
      var r := PushNext(init, f);
      forall i | 0 <= i < |r| ensures r[i].path != f.path + [n.id] { assert r[i] in r; }
    }
  }

  lemma PrefixTrans<T>(a: seq<T>, b: seq<T>, c: seq<T>)
    ensures a <= b && b <= c ==> a <= c
    ensures a <= c && b <= c && |a| <= |b| ==> a <= b
  {
  }

  /** Replacing the top frame by its extensions keeps a stack apart. */
  lemma ApartStep(nodes: seq<Node>, maxDepth: int, stack: seq<Frame>)
    requires UniqueIds(nodes) && Apart(stack) && stack != []
    ensures Apart(Below(stack) + Expand(nodes, maxDepth, Top(stack)))
  {
    var f, below, pushed := Top(stack), Below(stack), Expand(nodes, maxDepth, Top(stack));
    var next: seq<Frame> := below + pushed;
    PushNextDistinct(nodes, f);
    forall i, j | 0 <= i < |next| && 0 <= j < |next| && i != j ensures !(next[i].path <= next[j].path) {
      var a, b := next[i].path, next[j].path;
      if i < |below| {
        assert next[i] == stack[i];
        if j < |below| {
          assert next[j] == stack[j];
        } else {
          assert next[j] in pushed;
          PrefixTrans(a, f.path, b);
          PrefixTrans(f.path, a, b);
        }
      } else {
        assert next[i] in pushed;
        if j < |below| {
          assert next[j] == stack[j];
          PrefixTrans(f.path, a, b);
        } else {
          assert next[j] in pushed;
          assert next[i] == pushed[i - |below|] && next[j] == pushed[j - |below|];
        }
      }
    }
  }

  lemma {:induction false} RunExtends(nodes: seq<Node>, maxDepth: int, stack: seq<Frame>, todo: seq<Frame>, g: Frame)
    requires UniqueIds(nodes) && Run(nodes, maxDepth, stack, todo) && g in todo
    ensures Pending(stack, g.path)
    decreases |todo|
  {
    RunPop(nodes, maxDepth, stack, todo);
    var f := Top(stack);
    SplitLast(stack);
    if g != todo[0] {
      assert g in todo[1..];
      RunExtends(nodes, maxDepth, Below(stack) + Expand(nodes, maxDepth, f), todo[1..], g);
      if Pending(Expand(nodes, maxDepth, f), g.path) {
        ExpandExtends(nodes, maxDepth, f, g.path);
      }
    }
  }

  lemma ExpandExtends(nodes: seq<Node>, maxDepth: int, f: Frame, p: seq<string>)
    requires UniqueIds(nodes) && Pending(Expand(nodes, maxDepth, f), p)
    ensures f.path < p
  {
    var pushed := Expand(nodes, maxDepth, f);
    PushNextDistinct(nodes, f);
    var g :| g in pushed && g.path <= p;
  }

  lemma {:induction false} RunDistinct(nodes: seq<Node>, maxDepth: int, stack: seq<Frame>, todo: seq<Frame>)
    requires UniqueIds(nodes) && Run(nodes, maxDepth, stack, todo) && Apart(stack)
    ensures DistinctPaths(todo)
    decreases |todo|
  {
    if stack != [] {
      RunPop(nodes, maxDepth, stack, todo);
      ApartStep(nodes, maxDepth, stack);
      var f, rest := Top(stack), todo[1..];
      RunDistinct(nodes, maxDepth, Below(stack) + Expand(nodes, maxDepth, f), rest);
      forall j | 0 <= j < |rest| ensures rest[j].path != f.path {
        TopGone(nodes, maxDepth, stack, rest, rest[j]);
      }
    }
  }

  lemma TopGone(nodes: seq<Node>, maxDepth: int, stack: seq<Frame>, rest: seq<Frame>, g: Frame)
    requires UniqueIds(nodes) && stack != [] && Apart(stack)
    requires Run(nodes, maxDepth, Below(stack) + Expand(nodes, maxDepth, Top(stack)), rest) && g in rest
    ensures g.path != Top(stack).path
  {
    var f := Top(stack);
    RunExtends(nodes, maxDepth, Below(stack) + Expand(nodes, maxDepth, f), rest, g);
    if Pending(Expand(nodes, maxDepth, f), g.path) {
      ExpandExtends(nodes, maxDepth, f, g.path);
    } else {
      var k :| 0 <= k < |Below(stack)| && Below(stack)[k].path <= g.path;
      assert Below(stack)[k] == stack[k] && f == stack[|stack| - 1];
    }
  }

  lemma {:induction false} StartsApart(nodes: seq<Node>, base: set<string>, k: nat)
    requires UniqueIds(nodes) && k <= |nodes|
    ensures Apart(Starts(nodes, base, k))
    decreases |nodes| - k
  {
    if k < |nodes| {
      StartsApart(nodes, base, k + 1);
      var later := Starts(nodes, base, k + 1);
      StartsExact(nodes, base, k + 1);
      forall i | 0 <= i < |later| ensures |later[i].path| == 1 && later[i].path[0] != nodes[k].id {
        assert later[i] in later;
      }
    }
  }

  /** With unique ids the search never pops two frames with the same path. */
  lemma OrderDistinct(nodes: seq<Node>, base: set<string>, maxDepth: int)
    requires UniqueIds(nodes)
    ensures DistinctPaths(Order(nodes, maxDepth, Starts(nodes, base, 0)))
  {
    StartsApart(nodes, base, 0);
    RunDistinct(nodes, maxDepth, Starts(nodes, base, 0), Order(nodes, maxDepth, Starts(nodes, base, 0)));
  }
}
