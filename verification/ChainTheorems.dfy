/** What `FindChains` finds: exactly the member sets of simple capability chains. */
module ChainTheorems {
  import opened Ordering
  import opened Findings
  import opened StackSearch
  import opened ChainSearch

  // ----- Capability chains, with no search in sight -----------------------------------

  ghost predicate UniqueIds(nodes: seq<Node>) {
    forall i, j :: 0 <= i < j < |nodes| ==> nodes[i].id != nodes[j].id
  }

  ghost predicate HasNode(nodes: seq<Node>, id: string) {
    exists n :: n in nodes && n.id == id
  }

  /** Member `j` grants something member `i` requires. */
  ghost predicate Feeds(nodes: seq<Node>, a: string, b: string) {
    NodeAt(nodes, a).grant * NodeAt(nodes, b).need != {}
  }

  ghost predicate Reached(nodes: seq<Node>, p: seq<string>, i: nat)
    requires i < |p|
  {
    exists j :: 0 <= j < i && Feeds(nodes, p[j], p[i])
  }

  /** A simple capability chain: distinct findings, each later one requiring at least one
      capability an earlier one grants. */
  ghost predicate ChainPath(nodes: seq<Node>, p: seq<string>) {
    && p != []
    && Distinct(p)
    && (forall i :: 0 <= i < |p| ==> HasNode(nodes, p[i]))
    && (forall i :: 1 <= i < |p| ==> Reached(nodes, p, i))
  }

  /** Everything the members grant. */
  ghost function GrantsOf(nodes: seq<Node>, p: seq<string>): set<string> {
    if p == [] then {} else GrantsOf(nodes, p[..|p| - 1]) + NodeAt(nodes, p[|p| - 1]).grant
  }

  lemma {:induction false} GrantsMembers(nodes: seq<Node>, p: seq<string>, cap: string)
    ensures cap in GrantsOf(nodes, p) <==> exists j :: 0 <= j < |p| && cap in NodeAt(nodes, p[j]).grant
  {
    if p != [] {
      var init := p[..|p| - 1];
      GrantsMembers(nodes, init, cap);
      if j :| 0 <= j < |p| && cap in NodeAt(nodes, p[j]).grant {
        if j < |p| - 1 { assert init[j] == p[j]; }
      }
      if j :| 0 <= j < |init| && cap in NodeAt(nodes, init[j]).grant {
        assert p[j] == init[j];
      }
    }
  }

  // ----- The node table ------------------------------------------------------------------

  lemma {:induction false} NodeAtMember(nodes: seq<Node>, n: Node)
    requires UniqueIds(nodes) && n in nodes
    ensures NodeAt(nodes, n.id) == n
  {
    if nodes[0] != n {
      assert n in nodes[1..];
      NodeAtMember(nodes[1..], n);
    }
  }

  lemma {:induction false} NodesListed(all: seq<Finding>, n: Node)
    ensures n in NodesOf(all) <==> exists f :: f in all && Live(f) && n == Node(f.id, Grants(f), Needs(f))
  {
    if all != [] {
      NodesListed(all[1..], n);
      assert all == [all[0]] + all[1..];
    }
  }

  lemma {:induction false} NodesUnique(all: seq<Finding>)
    requires WellKeyed(all)
    ensures UniqueIds(NodesOf(all))
  {
    if all != [] {
      var rest := NodesOf(all[1..]);
      NodesUnique(all[1..]);
      forall j | 0 <= j < |rest| ensures rest[j].id != all[0].id {
        NodesListed(all[1..], rest[j]);
      }
    }
  }

  /** The table holds the live findings with their normalized labels, one node per id. */
  lemma NodesExact(all: seq<Finding>)
    ensures forall n :: n in NodesOf(all) <==>
                        exists f :: f in all && Live(f) && n == Node(f.id, Grants(f), Needs(f))
    ensures WellKeyed(all) ==> UniqueIds(NodesOf(all))
  {
    forall n ensures n in NodesOf(all) <==> exists f :: f in all && Live(f) && n == Node(f.id, Grants(f), Needs(f)) {
      NodesListed(all, n);
    }
    if WellKeyed(all) { NodesUnique(all); }
  }

  // ----- Frames are determined by their paths -----------------------------------------------

  ghost function FrameOf(nodes: seq<Node>, p: seq<string>): Frame
    requires p != []
  {
    Frame(p[|p| - 1], SetOf(p), p, GrantsOf(nodes, p[..|p| - 1]))
  }

  ghost predicate Good(nodes: seq<Node>, f: Frame) {
    ChainPath(nodes, f.path) && f == FrameOf(nodes, f.path)
  }

  lemma HeldIsGrants(nodes: seq<Node>, f: Frame)
    requires Good(nodes, f)
    ensures Held(nodes, f) == GrantsOf(nodes, f.path)
  {
  }

  lemma NeedersAt(nodes: seq<Node>, cap: string, id: string)
    requires UniqueIds(nodes)
    ensures id in NeedersOf(nodes, cap) <==> HasNode(nodes, id) && cap in NodeAt(nodes, id).need
  {
    NeedersMembers(nodes, cap, id);
    forall n | n in nodes ensures NodeAt(nodes, n.id) == n {
      NodeAtMember(nodes, n);
    }
  }

  /** Extending a chain by one finding is having that finding, not yet on the path,
      require a capability held. */
  lemma ExtendIff(nodes: seq<Node>, p: seq<string>, id: string)
    requires ChainPath(nodes, p)
    ensures ChainPath(nodes, p + [id]) <==>
            id !in p && HasNode(nodes, id) && GrantsOf(nodes, p) * NodeAt(nodes, id).need != {}
  {
    var q := p + [id];
    assert forall i :: 0 <= i < |p| ==> q[i] == p[i];
    assert Reached(nodes, q, |p|) <==> GrantsOf(nodes, p) * NodeAt(nodes, id).need != {} by {
      ReachedIff(nodes, p, id);
    }
    assert Distinct(q) <==> id !in p;
    if id !in p && HasNode(nodes, id) && Reached(nodes, q, |p|) {
      forall i | 1 <= i < |q| ensures Reached(nodes, q, i) {
        if i < |p| {
          assert Reached(nodes, p, i);
          var j :| 0 <= j < i && Feeds(nodes, p[j], p[i]);
          assert Feeds(nodes, q[j], q[i]);
        }
      }
    }
    if ChainPath(nodes, q) {
      assert Reached(nodes, q, |p|);
      assert HasNode(nodes, q[|p|]);
    }
  }

  lemma ReachedIff(nodes: seq<Node>, p: seq<string>, id: string)
    ensures Reached(nodes, p + [id], |p|) <==> GrantsOf(nodes, p) * NodeAt(nodes, id).need != {}
  {
    var q := p + [id];
    forall cap { GrantsMembers(nodes, p, cap); }
    if Reached(nodes, q, |p|) {
      var j :| 0 <= j < |p| && Feeds(nodes, q[j], q[|p|]);
      var cap :| cap in NodeAt(nodes, q[j]).grant * NodeAt(nodes, id).need;
      assert q[j] == p[j];
      assert cap in GrantsOf(nodes, p) * NodeAt(nodes, id).need;
    }
    if GrantsOf(nodes, p) * NodeAt(nodes, id).need != {} {
      var cap :| cap in GrantsOf(nodes, p) * NodeAt(nodes, id).need;
      var j :| 0 <= j < |p| && cap in NodeAt(nodes, p[j]).grant;
      assert cap in NodeAt(nodes, q[j]).grant * NodeAt(nodes, id).need;
      assert Feeds(nodes, q[j], q[|p|]);
    }
  }

  lemma StepIsFrame(nodes: seq<Node>, f: Frame, id: string)
    requires Good(nodes, f)
    ensures Step(f, Held(nodes, f), id) == FrameOf(nodes, f.path + [id])
  {
    HeldIsGrants(nodes, f);
    SetOfPush(f.path, id);
    assert (f.path + [id])[..|f.path|] == f.path;
  }

  lemma HeldListed(held: set<string>, cap: string)
    ensures cap in SetKeys(held) <==> cap in held
  {
    assert cap in SetOf(SetKeys(held)) <==> cap in SetKeys(held);
  }

  /** A frame pushed in one turn is a one-finding extension of the path. */
  lemma ExpandSound(nodes: seq<Node>, f: Frame, g: Frame) returns (id: string)
    requires UniqueIds(nodes) && Good(nodes, f) && g in Expand(nodes, f)
    ensures |f.path| < MAX_LENGTH && ChainPath(nodes, f.path + [id]) && g == FrameOf(nodes, f.path + [id])
  {
    var held := Held(nodes, f);
    PushCapsMembers(nodes, f, held, SetKeys(held), g);
    var cap;
    cap, id :| cap in SetKeys(held) && Pushable(nodes, f, cap, id) && g == Step(f, held, id);
    HeldListed(held, cap);
    HeldIsGrants(nodes, f);
    NeedersAt(nodes, cap, id);
    assert cap in GrantsOf(nodes, f.path) * NodeAt(nodes, id).need;
    ExtendIff(nodes, f.path, id);
    StepIsFrame(nodes, f, id);
  }

  /** Every one-finding extension of a path short of the depth limit is pushed. */
  lemma ExpandComplete(nodes: seq<Node>, f: Frame, id: string)
    requires UniqueIds(nodes) && Good(nodes, f)
    requires |f.path| < MAX_LENGTH && ChainPath(nodes, f.path + [id])
    ensures FrameOf(nodes, f.path + [id]) in Expand(nodes, f)
  {
    var held := Held(nodes, f);
    ExtendIff(nodes, f.path, id);
    var cap :| cap in GrantsOf(nodes, f.path) * NodeAt(nodes, id).need;
    HeldIsGrants(nodes, f);
    HeldListed(held, cap);
    NeedersAt(nodes, cap, id);
    assert Pushable(nodes, f, cap, id);
    StepIsFrame(nodes, f, id);
    PushCapsMembers(nodes, f, held, SetKeys(held), Step(f, held, id));
  }

  // ----- A run visits exactly the chains that extend its stack ---------------------------------

  ghost predicate AllGood(nodes: seq<Node>, stack: seq<Frame>) {
    forall f :: f in stack ==> Good(nodes, f) && |f.path| <= MAX_LENGTH
  }

  lemma StackStep(nodes: seq<Node>, stack: seq<Frame>)
    requires UniqueIds(nodes) && AllGood(nodes, stack) && stack != []
    ensures AllGood(nodes, Below(stack) + Expand(nodes, Top(stack)))
  {
    forall g | g in Below(stack) + Expand(nodes, Top(stack)) ensures Good(nodes, g) && |g.path| <= MAX_LENGTH {
      if g in Expand(nodes, Top(stack)) {
        var id := ExpandSound(nodes, Top(stack), g);
        assert (FrameOf(nodes, Top(stack).path + [id])).path == Top(stack).path + [id];
      }
    }
  }

  lemma ChainPrefix(nodes: seq<Node>, p: seq<string>, n: nat)
    requires ChainPath(nodes, p) && 0 < n <= |p|
    ensures ChainPath(nodes, p[..n])
  {
    var q := p[..n];
    forall i | 1 <= i < n ensures Reached(nodes, q, i) {
      assert Reached(nodes, p, i);
      var j :| 0 <= j < i && Feeds(nodes, p[j], p[i]);
      assert Feeds(nodes, q[j], q[i]);
    }
  }

  lemma {:induction false} RunSound(nodes: seq<Node>, stack: seq<Frame>, todo: seq<Frame>)
    requires UniqueIds(nodes) && AllGood(nodes, stack) && Run(nodes, stack, todo)
    ensures AllGood(nodes, todo)
    decreases |todo|
  {
    if stack != [] {
      RunPop(nodes, stack, todo);
      StackStep(nodes, stack);
      RunSound(nodes, Below(stack) + Expand(nodes, Top(stack)), todo[1..]);
      forall f | f in todo ensures Good(nodes, f) && |f.path| <= MAX_LENGTH {
        assert f == todo[0] || f in todo[1..];
      }
    }
  }

  ghost predicate Pending(stack: seq<Frame>, p: seq<string>) {
    exists f :: f in stack && f.path <= p
  }

  /** The way from a frame to a chain it starts goes through one of the pushed frames. */
  lemma NextPending(nodes: seq<Node>, f: Frame, p: seq<string>)
    requires UniqueIds(nodes) && Good(nodes, f)
    requires ChainPath(nodes, p) && |p| <= MAX_LENGTH && f.path < p
    ensures Pending(Expand(nodes, f), p)
  {
    var n := |f.path|;
    assert f.path + [p[n]] == p[..n + 1];
    ChainPrefix(nodes, p, n + 1);
    ExpandComplete(nodes, f, p[n]);
    assert FrameOf(nodes, p[..n + 1]) in Expand(nodes, f);
  }

  /** A chain that a stack leads to is the top frame's, or the stack after the turn still
      leads to it. */
  lemma StillPending(nodes: seq<Node>, stack: seq<Frame>, p: seq<string>)
    requires UniqueIds(nodes) && AllGood(nodes, stack) && stack != []
    requires ChainPath(nodes, p) && |p| <= MAX_LENGTH && Pending(stack, p)
    ensures Top(stack).path == p || Pending(Below(stack) + Expand(nodes, Top(stack)), p)
  {
    SplitLast(stack);
    assert Top(stack) in stack;
    if Top(stack).path < p {
      NextPending(nodes, Top(stack), p);
    }
  }

  /** Every chain that extends a path on the stack is visited. */
  lemma {:induction false} RunComplete(nodes: seq<Node>, stack: seq<Frame>, todo: seq<Frame>, p: seq<string>)
    requires UniqueIds(nodes) && AllGood(nodes, stack) && Run(nodes, stack, todo)
    requires ChainPath(nodes, p) && |p| <= MAX_LENGTH && Pending(stack, p)
    ensures FrameOf(nodes, p) in todo
    decreases |todo|
  {
    assert stack != [];
    RunPop(nodes, stack, todo);
    StackStep(nodes, stack);
    StillPending(nodes, stack, p);
    if Top(stack).path == p {
      assert Good(nodes, Top(stack));
    } else {
      RunComplete(nodes, Below(stack) + Expand(nodes, Top(stack)), todo[1..], p);
    }
  }

  lemma {:induction false} StartsExact(nodes: seq<Node>, k: nat)
    requires k <= |nodes|
    ensures forall f :: f in Starts(nodes, k) <==> exists i :: k <= i < |nodes| && f == Start(nodes[i].id)
    decreases |nodes| - k
  {
    if k < |nodes| {
      StartsExact(nodes, k + 1);
    }
  }

  lemma StartsGood(nodes: seq<Node>)
    ensures AllGood(nodes, Starts(nodes, 0))
  {
    StartsExact(nodes, 0);
    forall f | f in Starts(nodes, 0) ensures Good(nodes, f) && |f.path| <= MAX_LENGTH {
      var i :| 0 <= i < |nodes| && f == Start(nodes[i].id);
      assert nodes[i] in nodes && HasNode(nodes, f.path[0]);
      assert SetOf([nodes[i].id]) == {nodes[i].id};
      assert GrantsOf(nodes, f.path[..0]) == {};
    }
  }

  /** The whole search pops exactly the frames of the chains of length at most 5. */
  lemma OrderExact(nodes: seq<Node>)
    requires UniqueIds(nodes)
    ensures forall f :: f in Order(nodes, Starts(nodes, 0)) <==>
                        ChainPath(nodes, f.path) && |f.path| <= MAX_LENGTH && f == FrameOf(nodes, f.path)
  {
    var stack, todo := Starts(nodes, 0), Order(nodes, Starts(nodes, 0));
    StartsGood(nodes);
    RunSound(nodes, stack, todo);
    forall f: Frame | ChainPath(nodes, f.path) && |f.path| <= MAX_LENGTH && f == FrameOf(nodes, f.path)
      ensures f in todo
    {
      var p := f.path;
      assert HasNode(nodes, p[0]);
      var n :| n in nodes && n.id == p[0];
      var i :| 0 <= i < |nodes| && nodes[i] == n;
      StartsExact(nodes, 0);
      assert Start(nodes[i].id) in stack;
      RunComplete(nodes, stack, todo, p);
    }
  }

  // ----- Member keys ------------------------------------------------------------------------------

  /** Two member lists share a key exactly when one is a rearrangement of the other. */
  lemma MemberKeyExact(p: seq<string>, q: seq<string>)
    requires p != [] && q != [] && KeyIds(p) && KeyIds(q)
    ensures MemberKey(p) == MemberKey(q) <==> multiset(p) == multiset(q)
  {
    forall s: seq<string> | s != [] && KeyIds(s) ensures Split(MemberKey(s), '|') == Ascending(s) {
      forall id | id in Ascending(s) ensures '|' !in id {
        assert id in multiset(Ascending(s));
      }
      SplitJoin(Ascending(s), '|');
    }
    AscendingByContents(p, q);
  }

  lemma SameMembers(p: seq<string>, q: seq<string>)
    requires Distinct(p) && Distinct(q)
    ensures multiset(p) == multiset(q) <==> SetOf(p) == SetOf(q)
  {
    DistinctMultiset(p);
    DistinctMultiset(q);
    if multiset(p) == multiset(q) {
      DistinctByMultiset(p, q);
    }
  }

  // ----- From frames to proposals -----------------------------------------------------------------

  ghost predicate Eligible(nodes: seq<Node>, minLength: int, frames: seq<Frame>, seen: set<string>, q: Proposal) {
    exists f :: f in frames && |f.path| >= minLength && MemberKey(f.path) !in seen && q == ProposalOf(nodes, f)
  }

  lemma {:induction false} ProposeSound(nodes: seq<Node>, minLength: int, room: nat, frames: seq<Frame>,
                                        seen: set<string>)
    ensures forall q :: q in Propose(nodes, minLength, room, frames, seen) ==>
            Eligible(nodes, minLength, frames, seen, q)
    ensures |Propose(nodes, minLength, room, frames, seen)| <= room
    decreases |frames|
  {
    if frames != [] && room > 0 {
      var f, rest := frames[0], frames[1..];
      assert frames == [f] + rest;
      var isNew := |f.path| >= minLength && MemberKey(f.path) !in seen;
      var room', seen' := if isNew then room - 1 else room, if isNew then seen + {MemberKey(f.path)} else seen;
      ProposeSound(nodes, minLength, room', rest, seen');
      forall q | q in Propose(nodes, minLength, room', rest, seen')
        ensures Eligible(nodes, minLength, frames, seen, q)
      {
        var g :| g in rest && |g.path| >= minLength && MemberKey(g.path) !in seen' && q == ProposalOf(nodes, g);
        assert g in frames;
      }
      if isNew {
        assert Eligible(nodes, minLength, frames, seen, ProposalOf(nodes, f));
      }
    }
  }

  ghost predicate KeysDistinct(r: seq<Proposal>) {
    forall i, j :: 0 <= i < j < |r| ==> MemberKey(r[i].members) != MemberKey(r[j].members)
  }

  lemma {:induction false} ProposeDistinct(nodes: seq<Node>, minLength: int, room: nat, frames: seq<Frame>,
                                           seen: set<string>)
    ensures KeysDistinct(Propose(nodes, minLength, room, frames, seen))
    decreases |frames|
  {
    if frames != [] && room > 0 {
      var f, rest := frames[0], frames[1..];
      if |f.path| >= minLength && MemberKey(f.path) !in seen {
        var seen' := seen + {MemberKey(f.path)};
        ProposeDistinct(nodes, minLength, room - 1, rest, seen');
        ProposeSound(nodes, minLength, room - 1, rest, seen');
        var r := Propose(nodes, minLength, room - 1, rest, seen');
        forall j | 0 <= j < |r| ensures MemberKey(r[j].members) != MemberKey(f.path) {
          assert r[j] in r;
        }
      } else {
        ProposeDistinct(nodes, minLength, room, rest, seen);
      }
    }
  }

  ghost predicate Proposed(r: seq<Proposal>, key: string) {
    exists i :: 0 <= i < |r| && MemberKey(r[i].members) == key
  }

  lemma {:induction false} ProposeComplete(nodes: seq<Node>, minLength: int, room: nat, frames: seq<Frame>,
                                           seen: set<string>, f: Frame)
    requires |Propose(nodes, minLength, room, frames, seen)| < room
    requires f in frames && |f.path| >= minLength && MemberKey(f.path) !in seen
    ensures Proposed(Propose(nodes, minLength, room, frames, seen), MemberKey(f.path))
    decreases |frames|
  {
    var g, rest := frames[0], frames[1..];
    var r := Propose(nodes, minLength, room, frames, seen);
    if |g.path| >= minLength && MemberKey(g.path) !in seen {
      assert r[0] == ProposalOf(nodes, g);
      if MemberKey(f.path) != MemberKey(g.path) {
        assert f in rest;
        var seen' := seen + {MemberKey(g.path)};
        ProposeComplete(nodes, minLength, room - 1, rest, seen', f);
        var i :| 0 <= i < |r[1..]| && MemberKey(r[1..][i].members) == MemberKey(f.path);
        assert r[i + 1] == r[1..][i];
      }
    } else {
      assert f in rest;
      ProposeComplete(nodes, minLength, room, rest, seen, f);
    }
  }

  // ----- The theorem -----------------------------------------------------------------------------------

  ghost predicate ProposalSound(nodes: seq<Node>, minLength: int, q: Proposal) {
    && ChainPath(nodes, q.members)
    && minLength <= |q.members| <= MAX_LENGTH
    && q.capabilities == SetKeys(GrantsOf(nodes, q.members))
  }

  ghost predicate HasMembers(r: seq<Proposal>, members: set<string>) {
    exists i :: 0 <= i < |r| && SetOf(r[i].members) == members
  }

  lemma ChainKeyIds(all: seq<Finding>, p: seq<string>)
    requires WellKeyed(all) && ChainPath(NodesOf(all), p)
    ensures KeyIds(p)
  {
    NodesExact(all);
    forall id | id in p ensures '|' !in id {
      var i :| 0 <= i < |p| && p[i] == id;
      assert HasNode(NodesOf(all), p[i]);
    }
  }

  /** Every proposal is a chain of live findings of an admitted length, reported with the
      union of its members' grants. */
  lemma ProposalsSound(all: seq<Finding>, minLength: int)
    requires WellKeyed(all)
    ensures forall q :: q in Proposals(NodesOf(all), minLength) ==> ProposalSound(NodesOf(all), minLength, q)
    ensures |Proposals(NodesOf(all), minLength)| <= MAX_PROPOSALS
  {
    var nodes := NodesOf(all);
    NodesExact(all);
    OrderExact(nodes);
    var frames := Order(nodes, Starts(nodes, 0));
    ProposeSound(nodes, minLength, MAX_PROPOSALS, frames, {});
    forall q | q in Proposals(nodes, minLength) ensures ProposalSound(nodes, minLength, q) {
      EligibleSound(nodes, minLength, frames, q);
    }
  }

  lemma EligibleSound(nodes: seq<Node>, minLength: int, frames: seq<Frame>, q: Proposal)
    requires AllGood(nodes, frames) && Eligible(nodes, minLength, frames, {}, q)
    ensures ProposalSound(nodes, minLength, q)
  {
    var f :| f in frames && |f.path| >= minLength && q == ProposalOf(nodes, f);
    HeldIsGrants(nodes, f);
  }

  /** No two proposals have the same members. */
  lemma ProposalsDistinct(all: seq<Finding>, minLength: int)
    requires WellKeyed(all)
    ensures var r := Proposals(NodesOf(all), minLength);
            forall i, j :: 0 <= i < j < |r| ==> SetOf(r[i].members) != SetOf(r[j].members)
  {
    var nodes := NodesOf(all);
    var r := Proposals(nodes, minLength);
    ProposalsSound(all, minLength);
    ProposeDistinct(nodes, minLength, MAX_PROPOSALS, Order(nodes, Starts(nodes, 0)), {});
    forall i, j | 0 <= i < j < |r| ensures SetOf(r[i].members) != SetOf(r[j].members) {
      assert r[i] in r && r[j] in r;
      ChainKeyIds(all, r[i].members);
      ChainKeyIds(all, r[j].members);
      MemberKeyExact(r[i].members, r[j].members);
      SameMembers(r[i].members, r[j].members);
    }
  }

  /** Below the cap nothing is missed: the member sets proposed are exactly the member sets
      of the chains of length between `minLength` and 5. */
  lemma ProposalsComplete(all: seq<Finding>, minLength: int, p: seq<string>)
    requires WellKeyed(all)
    requires |Proposals(NodesOf(all), minLength)| < MAX_PROPOSALS
    requires ChainPath(NodesOf(all), p) && minLength <= |p| <= MAX_LENGTH
    ensures HasMembers(Proposals(NodesOf(all), minLength), SetOf(p))
  {
    var nodes := NodesOf(all);
    var frames := Order(nodes, Starts(nodes, 0));
    var r := Proposals(nodes, minLength);
    NodesExact(all);
    OrderExact(nodes);
    var f := FrameOf(nodes, p);
    assert f in frames;
    ProposeComplete(nodes, minLength, MAX_PROPOSALS, frames, {}, f);
    var i :| 0 <= i < |r| && MemberKey(r[i].members) == MemberKey(p);
    ProposalsSound(all, minLength);
    assert r[i] in r;
    ChainKeyIds(all, p);
    ChainKeyIds(all, r[i].members);
    MemberKeyExact(r[i].members, p);
    SameMembers(r[i].members, p);
  }
}
