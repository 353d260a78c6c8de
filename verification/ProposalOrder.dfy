/** The order in which the proposal search lists its chains, and which arrangement of a member set it
    lists. */
module ProposalOrder {
  import opened Ordering
  import opened StackSearch
  import opened ChainSearch
  import opened ChainTheorems
  import SearchOrder

  function IdsOf(nodes: seq<Node>): (r: seq<string>)
    ensures |r| == |nodes| && forall i :: 0 <= i < |r| ==> r[i] == nodes[i].id
  {
    seq(|nodes|, i requires 0 <= i < |nodes| => nodes[i].id)
  }

  ghost predicate Earlier(nodes: seq<Node>, a: string, b: string) {
    SearchOrder.Earlier(IdsOf(nodes), a, b)
  }

  // ----- Which of two chains is visited first ----------------------------------------------------

  /** The members so far grant the label, and the next one requires it. */
  ghost predicate Shares(nodes: seq<Node>, p: seq<string>, next: string, cap: string) {
    cap in GrantsOf(nodes, p) && cap in NodeAt(nodes, next).need
  }

  /** Behind the same members, `a` shares a label with them that is above every label `b` shares; or
      they share the same greatest label, and `a` is the later finding. */
  ghost predicate Leads(nodes: seq<Node>, p: seq<string>, a: string, b: string) {
    exists cap :: Shares(nodes, p, a, cap)
      && forall d :: Shares(nodes, p, b, d) ==> Leq(d, cap) && (d == cap ==> Earlier(nodes, b, a))
  }

  ghost predicate PartsAt(nodes: seq<Node>, p: seq<string>, q: seq<string>, k: nat) {
    && k < |p| && k < |q| && p[..k] == q[..k]
    && if k == 0 then Earlier(nodes, p[k], q[k]) else Leads(nodes, p[..k], p[k], q[k])
  }

  ghost predicate Ahead(nodes: seq<Node>, p: seq<string>, q: seq<string>) {
    exists k: nat :: PartsAt(nodes, p, q, k)
  }

  ghost predicate VisitedBefore(nodes: seq<Node>, p: seq<string>, q: seq<string>) {
    p < q || Ahead(nodes, p, q)
  }

  lemma AheadExtends(nodes: seq<Node>, p: seq<string>, q: seq<string>, longerP: seq<string>, longerQ: seq<string>)
    requires Ahead(nodes, p, q) && p <= longerP && q <= longerQ
    ensures Ahead(nodes, longerP, longerQ)
  {
    var k: nat :| PartsAt(nodes, p, q, k);
    assert longerP[..k] == p[..k] && longerQ[..k] == q[..k];
    assert PartsAt(nodes, longerP, longerQ, k);
  }

  // ----- What one turn pushes ---------------------------------------------------------------------

  /** Every frame of the list is the step to its own finding, and later ones go to later findings. */
  ghost predicate StepsInOrder(nodes: seq<Node>, f: Frame, held: set<string>, list: seq<Frame>) {
    && (forall i :: 0 <= i < |list| ==> list[i] == Step(f, held, list[i].cur))
    && forall i, j :: 0 <= i < j < |list| ==> Earlier(nodes, list[i].cur, list[j].cur)
  }

  ghost predicate InNodeOrder(nodes: seq<Node>, ids: seq<string>) {
    forall i, j :: 0 <= i < j < |ids| ==> Earlier(nodes, ids[i], ids[j])
  }

  lemma EarlierBehind(nodes: seq<Node>, a: string, b: string)
    requires nodes != [] && Earlier(nodes[1..], a, b)
    ensures Earlier(nodes, a, b)
  {
    assert IdsOf(nodes)[1..] == IdsOf(nodes[1..]);
    SearchOrder.EarlierTail(IdsOf(nodes), a, b);
  }

  lemma EarlierThan(nodes: seq<Node>, b: string)
    requires nodes != [] && exists n :: n in nodes[1..] && n.id == b
    ensures Earlier(nodes, nodes[0].id, b)
  {
    var n :| n in nodes[1..] && n.id == b;
    var j :| 0 <= j < |nodes[1..]| && nodes[1..][j] == n;
    assert IdsOf(nodes)[0] == nodes[0].id && IdsOf(nodes)[j + 1] == b;
  }

  lemma {:induction false} NeedersInOrder(nodes: seq<Node>, cap: string)
    ensures InNodeOrder(nodes, NeedersOf(nodes, cap))
    decreases |nodes|
  {
    if nodes != [] {
      var rest, list := NeedersOf(nodes[1..], cap), NeedersOf(nodes, cap);
      NeedersInOrder(nodes[1..], cap);
      var first := if cap in nodes[0].need then 1 else 0;
      forall i, j | 0 <= i < j < |list| ensures Earlier(nodes, list[i], list[j]) {
        assert list[j] == rest[j - first] && list[j] in rest;
        if i >= first {
          assert list[i] == rest[i - first];
          EarlierBehind(nodes, list[i], list[j]);
        } else {
          NeedersMembers(nodes[1..], cap, list[j]);
          EarlierThan(nodes, list[j]);
        }
      }
    }
  }

  lemma {:induction false} PushedInOrder(nodes: seq<Node>, f: Frame, held: set<string>, needers: seq<string>)
    requires InNodeOrder(nodes, needers)
    ensures StepsInOrder(nodes, f, held, PushNeeders(f, held, needers))
    ensures forall g :: g in PushNeeders(f, held, needers) ==> g.cur in needers
  {
    if needers != [] {
      var init, id := needers[..|needers| - 1], needers[|needers| - 1];
      SplitLast(needers);
      forall i, j | 0 <= i < j < |init| ensures Earlier(nodes, init[i], init[j]) {
        assert init[i] == needers[i] && init[j] == needers[j];
      }
      PushedInOrder(nodes, f, held, init);
      var list := PushNeeders(f, held, init);
      forall i | 0 <= i < |list| ensures Earlier(nodes, list[i].cur, id) {
        assert list[i] in list && list[i].cur in init;
        var k :| 0 <= k < |init| && init[k] == list[i].cur;
        assert needers[k] == init[k];
      }
    }
  }

  /** The last one pushed for a finding decides: against every frame above it, its finding is led. */
  ghost predicate LedIn(nodes: seq<Node>, caps: seq<string>, a: string, b: string) {
    exists cap :: cap in caps && cap in NodeAt(nodes, a).need
      && forall d :: d in caps && d in NodeAt(nodes, b).need ==> Leq(d, cap) && (d == cap ==> Earlier(nodes, b, a))
  }

  ghost predicate Stacked(nodes: seq<Node>, f: Frame, held: set<string>, caps: seq<string>, list: seq<Frame>) {
    && (forall i :: 0 <= i < |list| ==> list[i] == Step(f, held, list[i].cur) && list[i].cur !in f.visit
                                        && exists n :: n in nodes && n.id == list[i].cur)
    && forall i, j :: 0 <= i < j < |list| ==> list[i] in list[i + 1..] || LedIn(nodes, caps, list[j].cur, list[i].cur)
  }

  lemma PushedHas(nodes: seq<Node>, f: Frame, held: set<string>, cap: string, id: string)
    requires UniqueIds(nodes) && id !in f.visit && (exists n :: n in nodes && n.id == id)
    requires cap in NodeAt(nodes, id).need
    ensures Step(f, held, id) in PushNeeders(f, held, NeedersOf(nodes, cap))
  {
    NeedersAt(nodes, cap, id);
    PushNeedersMembers(f, held, NeedersOf(nodes, cap), Step(f, held, id));
  }

  lemma LastLabel(init: seq<string>, cap: string)
    requires Increasing(init + [cap]) && Distinct(init + [cap])
    ensures Increasing(init) && Distinct(init) && forall d :: d in init ==> Leq(d, cap) && d != cap
  {
    var caps := init + [cap];
    assert caps[|init|] == cap;
    forall i: nat, j: nat | i < j < |init| ensures LeqAt(init, i, j) {
      assert LeqAt(caps, i, j);
      assert caps[i] == init[i] && caps[j] == init[j];
    }
    forall i, j | 0 <= i < j < |init| ensures init[i] != init[j] {
      assert caps[i] == init[i] && caps[j] == init[j];
    }
    forall d | d in init ensures Leq(d, cap) && d != cap {
      var i :| 0 <= i < |init| && init[i] == d;
      assert LeqAt(caps, i, |init|) && caps[i] == d;
    }
  }

  lemma LedStill(nodes: seq<Node>, init: seq<string>, cap: string, a: string, b: string)
    requires LedIn(nodes, init, a, b) && cap !in NodeAt(nodes, b).need
    ensures LedIn(nodes, init + [cap], a, b)
  {
    var c :| c in init && c in NodeAt(nodes, a).need
      && forall d :: d in init && d in NodeAt(nodes, b).need ==> Leq(d, c) && (d == c ==> Earlier(nodes, b, a));
    assert c in init + [cap];
  }

  lemma LedNow(nodes: seq<Node>, init: seq<string>, cap: string, a: string, b: string)
    requires cap in NodeAt(nodes, a).need && (forall d :: d in init ==> Leq(d, cap) && d != cap)
    requires cap in NodeAt(nodes, b).need ==> Earlier(nodes, b, a)
    ensures LedIn(nodes, init + [cap], a, b)
  {
    assert cap in init + [cap];
    LeqTotal(cap, cap);
  }

  lemma InTail<T>(a: seq<T>, b: seq<T>, i: nat, x: T)
    requires i < |a| && (x in a[i + 1..] || x in b)
    ensures x in (a + b)[i + 1..]
  {
    assert (a + b)[i + 1..] == a[i + 1..] + b;
  }

  lemma StackedPush(nodes: seq<Node>, f: Frame, held: set<string>, init: seq<string>, cap: string, list: seq<Frame>)
    requires UniqueIds(nodes) && Stacked(nodes, f, held, init, list)
    requires forall d :: d in init ==> Leq(d, cap) && d != cap
    ensures Stacked(nodes, f, held, init + [cap], list + PushNeeders(f, held, NeedersOf(nodes, cap)))
  {
    var needers := NeedersOf(nodes, cap);
    var block := PushNeeders(f, held, needers);
    var whole, caps := list + block, init + [cap];
    NeedersInOrder(nodes, cap);
    PushedInOrder(nodes, f, held, needers);
    forall j | 0 <= j < |block|
      ensures cap in NodeAt(nodes, block[j].cur).need && block[j].cur !in f.visit
              && exists n :: n in nodes && n.id == block[j].cur
    {
      assert block[j] in block;
      PushNeedersMembers(f, held, needers, block[j]);
      NeedersAt(nodes, cap, block[j].cur);
    }
    forall i, j | 0 <= i < j < |whole|
      ensures whole[i] in whole[i + 1..] || LedIn(nodes, caps, whole[j].cur, whole[i].cur)
    {
      if i < |list| {
        if cap in NodeAt(nodes, list[i].cur).need {
          PushedHas(nodes, f, held, cap, list[i].cur);
          InTail(list, block, i, list[i]);
        } else if j < |list| {
          if list[i] in list[i + 1..] {
            InTail(list, block, i, list[i]);
          } else {
            LedStill(nodes, init, cap, list[j].cur, list[i].cur);
          }
        } else {
          LedNow(nodes, init, cap, block[j - |list|].cur, list[i].cur);
        }
      } else {
        LedNow(nodes, init, cap, block[j - |list|].cur, block[i - |list|].cur);
      }
    }
  }

  lemma {:induction false} PushCapsStacked(nodes: seq<Node>, f: Frame, held: set<string>, caps: seq<string>)
    requires UniqueIds(nodes) && Increasing(caps) && Distinct(caps)
    ensures Stacked(nodes, f, held, caps, PushCaps(nodes, f, held, caps))
  {
    if caps != [] {
      var init, cap := caps[..|caps| - 1], caps[|caps| - 1];
      SplitLast(caps);
      LastLabel(init, cap);
      PushCapsStacked(nodes, f, held, init);
      StackedPush(nodes, f, held, init, cap, PushCaps(nodes, f, held, init));
    }
  }

  lemma LedLeads(nodes: seq<Node>, f: Frame, caps: seq<string>, a: string, b: string)
    requires Good(nodes, f) && caps == SetKeys(Held(nodes, f)) && LedIn(nodes, caps, a, b)
    ensures Leads(nodes, f.path, a, b)
  {
    HeldIsGrants(nodes, f);
    forall cap ensures cap in caps <==> cap in GrantsOf(nodes, f.path) { HeldListed(Held(nodes, f), cap); }
    var cap :| cap in caps && cap in NodeAt(nodes, a).need
      && forall d :: d in caps && d in NodeAt(nodes, b).need ==> Leq(d, cap) && (d == cap ==> Earlier(nodes, b, a));
    assert Shares(nodes, f.path, a, cap);
  }

  lemma SiblingsPart(nodes: seq<Node>, path: seq<string>, a: string, b: string)
    requires path != [] && Leads(nodes, path, a, b)
    ensures Ahead(nodes, path + [a], path + [b])
  {
    assert (path + [a])[..|path|] == path == (path + [b])[..|path|];
    assert PartsAt(nodes, path + [a], path + [b], |path|);
  }

  // ----- The stack -------------------------------------------------------------------------------

  /** Of two frames, the upper one is ahead; unless the lower one has been visited before, or stands on
      the stack again further up. */
  ghost predicate Layered(nodes: seq<Node>, stack: seq<Frame>, visited: set<seq<string>>) {
    forall i, j :: 0 <= i < j < |stack| ==>
      || stack[i].path in visited || stack[i] in stack[i + 1..]
      || Ahead(nodes, stack[j].path, stack[i].path)
  }

  /** The chains that continue a visited frame are visited, or are to be reached from further up. */
  ghost predicate Closed(nodes: seq<Node>, stack: seq<Frame>, visited: set<seq<string>>) {
    forall i, y :: 0 <= i < |stack| && stack[i].path in visited && Reachable(nodes, stack[i], y) ==>
      y in visited || Pending(stack[i + 1..], y)
  }

  ghost predicate Reachable(nodes: seq<Node>, f: Frame, y: seq<string>) {
    ChainPath(nodes, y) && |y| <= MAX_LENGTH && f.path <= y
  }

  lemma ExpandLayered(nodes: seq<Node>, f: Frame, visited: set<seq<string>>)
    requires UniqueIds(nodes) && Good(nodes, f)
    ensures Layered(nodes, Expand(nodes, f), visited)
    ensures forall g :: g in Expand(nodes, f) ==> f.path < g.path
  {
    var held := Held(nodes, f);
    var caps, list := SetKeys(held), Expand(nodes, f);
    if |f.path| < MAX_LENGTH {
      SetKeysSorted(held);
      PushCapsStacked(nodes, f, held, caps);
      forall i, j | 0 <= i < j < |list|
        ensures list[i] in list[i + 1..] || Ahead(nodes, list[j].path, list[i].path)
      {
        if list[i] !in list[i + 1..] {
          LedLeads(nodes, f, caps, list[j].cur, list[i].cur);
          SiblingsPart(nodes, f.path, list[j].cur, list[i].cur);
        }
      }
    }
  }

  lemma PendingAbove(a: seq<Frame>, b: seq<Frame>, i: nat, y: seq<string>)
    requires i < |a| && (Pending(a[i + 1..], y) || Pending(b, y))
    ensures Pending((a + b)[i + 1..], y)
  {
    assert (a + b)[i + 1..] == a[i + 1..] + b;
  }

  /** Popping a frame marks it visited and keeps both. */
  lemma LayersKept(nodes: seq<Node>, below: seq<Frame>, f: Frame, visited: set<seq<string>>)
    requires UniqueIds(nodes) && AllGood(nodes, below + [f]) && Layered(nodes, below + [f], visited)
    ensures Layered(nodes, below + Expand(nodes, f), visited + {f.path})
  {
    var stack, pushed := below + [f], Expand(nodes, f);
    var next, now := below + pushed, visited + {f.path};
    assert f in stack && stack[|below|] == f;
    ExpandLayered(nodes, f, now);
    forall i, j | 0 <= i < j < |next|
      ensures next[i].path in now || next[i] in next[i + 1..] || Ahead(nodes, next[j].path, next[i].path)
    {
      if i < |below| {
        LowerKept(nodes, below, f, pushed, visited, i, j);
      } else {
        assert next[i..][1..] == next[i + 1..] == pushed[i - |below| + 1..];
        assert next[i] == pushed[i - |below|] && next[j] == pushed[j - |below|];
      }
    }
  }

  lemma LowerKept(nodes: seq<Node>, below: seq<Frame>, f: Frame, pushed: seq<Frame>, visited: set<seq<string>>, i: nat,
                  j: nat)
    requires Layered(nodes, below + [f], visited) && forall g :: g in pushed ==> f.path < g.path
    requires i < |below| && i < j < |below + pushed|
    ensures var next := below + pushed;
            || next[i].path in visited + {f.path} || next[i] in next[i + 1..]
            || Ahead(nodes, next[j].path, next[i].path)
  {
    var stack, next := below + [f], below + pushed;
    var k := if j < |below| then j else |below|;
    assert stack[i] == below[i] == next[i] && stack[|below|] == f;
    assert stack[i + 1..] == below[i + 1..] + [f];
    if below[i].path !in visited && below[i] != f {
      if below[i] in below[i + 1..] {
        InTail(below, pushed, i, below[i]);
      } else {
        assert Ahead(nodes, stack[k].path, stack[i].path);
        if j < |below| {
          assert next[j] == stack[k];
        } else {
          assert next[j] in pushed;
          AheadExtends(nodes, f.path, below[i].path, next[j].path, below[i].path);
        }
      }
    }
  }

  lemma ClosureKept(nodes: seq<Node>, below: seq<Frame>, f: Frame, visited: set<seq<string>>)
    requires UniqueIds(nodes) && AllGood(nodes, below + [f]) && Closed(nodes, below + [f], visited)
    requires Rooted(below + [f], visited)
    ensures Closed(nodes, below + Expand(nodes, f), visited + {f.path})
  {
    var stack, pushed := below + [f], Expand(nodes, f);
    var next, now := below + pushed, visited + {f.path};
    assert f in stack;
    forall i, y | 0 <= i < |next| && next[i].path in now && Reachable(nodes, next[i], y)
      ensures y in now || Pending(next[i + 1..], y)
    {
      if i < |below| {
        assert stack[i] == below[i] == next[i];
        if y !in now {
          StillAbove(nodes, below, f, visited, i, y);
        }
      } else {
        NewlyPushed(nodes, below, f, visited, i - |below|, y);
      }
    }
  }

  lemma StillAbove(nodes: seq<Node>, below: seq<Frame>, f: Frame, visited: set<seq<string>>, i: nat, y: seq<string>)
    requires UniqueIds(nodes) && AllGood(nodes, below + [f]) && Closed(nodes, below + [f], visited)
    requires i < |below| && below[i].path in visited + {f.path} && Reachable(nodes, below[i], y)
    requires y !in visited && y != f.path
    ensures Pending((below + Expand(nodes, f))[i + 1..], y)
  {
    var stack := below + [f];
    assert f in stack && stack[i] == below[i];
    if f.path <= y {
      NextPending(nodes, f, y);
    } else {
      assert Pending(stack[i + 1..], y);
      PendingBelow(below, f, i, y);
    }
    PendingAbove(below, Expand(nodes, f), i, y);
  }

  lemma PendingBelow(below: seq<Frame>, f: Frame, i: nat, y: seq<string>)
    requires i < |below| && Pending((below + [f])[i + 1..], y) && !(f.path <= y)
    ensures Pending(below[i + 1..], y)
  {
    assert (below + [f])[i + 1..] == below[i + 1..] + [f];
  }

  /** A frame just pushed is new, or its continuations were closed when it was visited. */
  lemma NewlyPushed(nodes: seq<Node>, below: seq<Frame>, f: Frame, visited: set<seq<string>>, i: nat, y: seq<string>)
    requires UniqueIds(nodes) && AllGood(nodes, below + [f]) && Closed(nodes, below + [f], visited)
    requires Rooted(below + [f], visited)
    requires i < |Expand(nodes, f)| && Expand(nodes, f)[i].path in visited + {f.path}
    requires Reachable(nodes, Expand(nodes, f)[i], y)
    ensures y in visited
  {
    var stack, g := below + [f], Expand(nodes, f)[i];
    assert f in stack && g in Expand(nodes, f);
    var id := ExpandSound(nodes, f, g);
    assert g.path == f.path + [id];
    assert g.path[..|g.path| - 1] == f.path && |g.path| > 1;
    assert ParentIn(g.path, visited);
    assert f.path in visited;
    assert stack[|below|] == f && stack[|below| + 1..] == [];
    assert Reachable(nodes, f, y);
  }

  predicate ParentIn(p: seq<string>, visited: set<seq<string>>) {
    |p| > 1 ==> p[..|p| - 1] in visited
  }

  /** What a path or a frame continues has been visited. */
  ghost predicate Rooted(stack: seq<Frame>, visited: set<seq<string>>) {
    (forall f :: f in stack ==> ParentIn(f.path, visited)) && forall p :: p in visited ==> ParentIn(p, visited)
  }

  lemma ChildRooted(nodes: seq<Node>, f: Frame, g: Frame, visited: set<seq<string>>)
    requires UniqueIds(nodes) && Good(nodes, f) && g in Expand(nodes, f) && f.path in visited
    ensures ParentIn(g.path, visited)
  {
    var id := ExpandSound(nodes, f, g);
    assert (f.path + [id])[..|f.path|] == f.path;
  }

  lemma ParentStill(p: seq<string>, visited: set<seq<string>>, now: set<seq<string>>)
    requires ParentIn(p, visited) && visited <= now
    ensures ParentIn(p, now)
  {
  }

  lemma RootsKept(nodes: seq<Node>, below: seq<Frame>, f: Frame, visited: set<seq<string>>)
    requires UniqueIds(nodes) && AllGood(nodes, below + [f]) && Rooted(below + [f], visited)
    ensures Rooted(below + Expand(nodes, f), visited + {f.path})
  {
    var stack, now := below + [f], visited + {f.path};
    assert f in stack;
    forall g | g in below + Expand(nodes, f) ensures ParentIn(g.path, now) {
      if g in Expand(nodes, f) {
        ChildRooted(nodes, f, g, now);
      } else {
        assert g in stack;
        ParentStill(g.path, visited, now);
      }
    }
    forall p | p in now ensures ParentIn(p, now) {
      ParentStill(p, visited, now);
    }
  }

  // ----- The run ------------------------------------------------------------------------------------

  lemma {:induction false} Topmost(stack: seq<Frame>, y: seq<string>) returns (t: nat)
    requires Pending(stack, y)
    ensures t < |stack| && stack[t].path <= y && !Pending(stack[t + 1..], y)
    decreases |stack|
  {
    t := |stack| - 1;
    if !(stack[t].path <= y) {
      SplitLast(stack);
      var init := stack[..t];
      assert Pending(init, y);
      var k := Topmost(init, y);
      assert stack[k + 1..] == init[k + 1..] + [stack[t]];
      t := k;
    }
  }

  /** A chain not visited before, reached from what is left of the stack, comes behind the frame popped. */
  lemma FirstIsAhead(nodes: seq<Node>, below: seq<Frame>, f: Frame, visited: set<seq<string>>, y: seq<string>)
    requires UniqueIds(nodes) && AllGood(nodes, below + [f]) && Layered(nodes, below + [f], visited)
    requires Closed(nodes, below + Expand(nodes, f), visited + {f.path})
    requires ChainPath(nodes, y) && |y| <= MAX_LENGTH && y !in visited + {f.path}
    requires Pending(below + Expand(nodes, f), y)
    ensures VisitedBefore(nodes, f.path, y)
  {
    var stack, pushed := below + [f], Expand(nodes, f);
    var next := below + pushed;
    var t := Topmost(next, y);
    ExpandLayered(nodes, f, visited);
    if t < |below| {
      assert Reachable(nodes, next[t], y);
      assert next[t].path !in visited + {f.path};
      assert next[t] !in next[t + 1..] by { TopmostUnique(next, t, y); }
      assert next[t + 1..] == below[t + 1..] + pushed && stack[t + 1..] == below[t + 1..] + [f];
      assert stack[t] == below[t] == next[t] && stack[|below|] == f;
      AheadExtends(nodes, f.path, next[t].path, f.path, y);
    } else {
      assert next[t] in pushed;
    }
  }

  lemma TopmostUnique(stack: seq<Frame>, t: nat, y: seq<string>)
    requires t < |stack| && stack[t].path <= y && !Pending(stack[t + 1..], y)
    ensures stack[t] !in stack[t + 1..]
  {
  }

  ghost predicate InOrder(nodes: seq<Node>, todo: seq<Frame>, visited: set<seq<string>>) {
    forall a, b :: 0 <= a < b < |todo| && todo[b].path !in visited && todo[b] !in todo[..b] ==>
      VisitedBefore(nodes, todo[a].path, todo[b].path)
  }

  lemma SamePathSameFrame(nodes: seq<Node>, f: Frame, g: Frame)
    requires Good(nodes, f) && Good(nodes, g) && f.path == g.path
    ensures f == g
  {
  }

  lemma FreshBehind(nodes: seq<Node>, f: Frame, rest: seq<Frame>, b: nat)
    requires Good(nodes, f) && b < |rest| && Good(nodes, rest[b]) && rest[b] !in [f] + rest[..b]
    ensures rest[b].path != f.path && rest[b] !in rest[..b]
  {
    assert rest[b] != f;
  }

  lemma PairPushed(nodes: seq<Node>, f: Frame, rest: seq<Frame>, visited: set<seq<string>>, a: nat, c: nat)
    requires a <= c < |rest| && Good(nodes, f) && Good(nodes, rest[c]) && InOrder(nodes, rest, visited + {f.path})
    requires rest[c].path !in visited + {f.path} ==> VisitedBefore(nodes, f.path, rest[c].path)
    requires rest[c].path !in visited && rest[c] !in [f] + rest[..c]
    ensures VisitedBefore(nodes, ([f] + rest)[a].path, rest[c].path)
  {
    FreshBehind(nodes, f, rest, c);
    if a > 0 { assert ([f] + rest)[a] == rest[a - 1]; }
  }

  lemma OrderPush(nodes: seq<Node>, f: Frame, rest: seq<Frame>, visited: set<seq<string>>)
    requires AllGood(nodes, [f] + rest) && InOrder(nodes, rest, visited + {f.path})
    requires forall g :: g in rest && g.path !in visited + {f.path} ==> VisitedBefore(nodes, f.path, g.path)
    ensures InOrder(nodes, [f] + rest, visited)
  {
    var todo := [f] + rest;
    assert f in todo;
    forall a: nat, b: nat | a < b < |todo| && todo[b].path !in visited && todo[b] !in todo[..b]
      ensures VisitedBefore(nodes, todo[a].path, todo[b].path)
    {
      assert todo[b] == rest[b - 1] && rest[b - 1] in rest && rest[b - 1] in todo;
      assert todo[..b] == [f] + rest[..b - 1];
      PairPushed(nodes, f, rest, visited, a, b - 1);
    }
  }

  /** The chains are first visited in their order. */
  lemma {:induction false} PoppedInOrder(nodes: seq<Node>, stack: seq<Frame>, todo: seq<Frame>,
                                         visited: set<seq<string>>)
    requires UniqueIds(nodes) && AllGood(nodes, stack) && Run(nodes, stack, todo)
    requires Layered(nodes, stack, visited) && Closed(nodes, stack, visited) && Rooted(stack, visited)
    ensures InOrder(nodes, todo, visited)
    ensures forall g :: g in todo ==> Pending(stack, g.path)
    decreases |todo|
  {
    if stack != [] {
      RunPop(nodes, stack, todo);
      var f, below, rest := Top(stack), Below(stack), todo[1..];
      SplitLast(stack);
      StackStep(nodes, stack);
      LayersKept(nodes, below, f, visited);
      ClosureKept(nodes, below, f, visited);
      RootsKept(nodes, below, f, visited);
      PoppedInOrder(nodes, below + Expand(nodes, f), rest, visited + {f.path});
      RunSound(nodes, stack, todo);
      forall g | g in rest ensures Pending(stack, g.path) { PendingBefore(nodes, below, f, g.path); }
      forall g | g in rest && g.path !in visited + {f.path} ensures VisitedBefore(nodes, f.path, g.path) {
        assert g in todo;
        FirstIsAhead(nodes, below, f, visited, g.path);
      }
      OrderPush(nodes, f, rest, visited);
      forall g | g in todo ensures Pending(stack, g.path) {
        assert g == f || g in rest;
        assert f in stack && f.path <= f.path;
      }
    }
  }

  lemma PendingBefore(nodes: seq<Node>, below: seq<Frame>, f: Frame, y: seq<string>)
    requires UniqueIds(nodes) && Good(nodes, f) && Pending(below + Expand(nodes, f), y)
    ensures Pending(below + [f], y)
  {
    var g :| g in below + Expand(nodes, f) && g.path <= y;
    if g in Expand(nodes, f) {
      ExpandLayered(nodes, f, {});
      assert f in below + [f] && f.path <= y;
    } else {
      assert g in below + [f];
    }
  }

  lemma {:induction false} StartsLayered(nodes: seq<Node>, k: nat)
    requires k <= |nodes|
    ensures Layered(nodes, Starts(nodes, k), {})
    decreases |nodes| - k
  {
    if k < |nodes| {
      StartsLayered(nodes, k + 1);
      var rest, f := Starts(nodes, k + 1), Start(nodes[k].id);
      var stack := rest + [f];
      forall i, j | 0 <= i < j < |stack|
        ensures stack[i] in stack[i + 1..] || Ahead(nodes, stack[j].path, stack[i].path)
      {
        if j < |rest| {
          StartBelow(nodes, rest, f, i, j);
        } else {
          assert stack[i] == rest[i] && stack[j] == f;
          StartAhead(nodes, k, rest[i]);
        }
      }
    }
  }

  lemma StartAhead(nodes: seq<Node>, k: nat, g: Frame)
    requires k < |nodes| && g in Starts(nodes, k + 1)
    ensures Ahead(nodes, Start(nodes[k].id).path, g.path)
  {
    StartsExact(nodes, k + 1);
    var u :| k + 1 <= u < |nodes| && g == Start(nodes[u].id);
    var f := Start(nodes[k].id);
    assert IdsOf(nodes)[k] == nodes[k].id && IdsOf(nodes)[u] == nodes[u].id;
    assert f.path[..0] == g.path[..0];
    assert PartsAt(nodes, f.path, g.path, 0);
  }

  lemma StartBelow(nodes: seq<Node>, rest: seq<Frame>, f: Frame, i: nat, j: nat)
    requires Layered(nodes, rest, {}) && i < j < |rest|
    ensures var stack := rest + [f]; stack[i] in stack[i + 1..] || Ahead(nodes, stack[j].path, stack[i].path)
  {
    if rest[i] in rest[i + 1..] { InTail(rest, [f], i, rest[i]); }
  }

  /** The whole search first visits the chains in their order. */
  lemma SearchInOrder(nodes: seq<Node>)
    requires UniqueIds(nodes)
    ensures InOrder(nodes, Order(nodes, Starts(nodes, 0)), {})
  {
    var stack := Starts(nodes, 0);
    StartsGood(nodes);
    StartsLayered(nodes, 0);
    StartsExact(nodes, 0);
    PoppedInOrder(nodes, stack, Order(nodes, stack), {});
  }
}
