/** `FindChains`: the proposal search over granted-to-required edges. */
module ChainSearch {
  import opened Ordering
  import opened Findings
  import opened StackSearch

  const MAX_PROPOSALS: nat := 500
  const MAX_LENGTH: nat := 5

  datatype Node = Node(id: string, grant: set<string>, need: set<string>)

  datatype Frame = Frame(cur: string, visit: set<string>, path: seq<string>, held: set<string>)

  datatype Proposal = Proposal(members: seq<string>, capabilities: seq<string>)

  // ----- The node table ------------------------------------------------------

  function NodesOf(all: seq<Finding>): (r: seq<Node>) {
    if all == [] then []
    else (if Live(all[0]) then [Node(all[0].id, Grants(all[0]), Needs(all[0]))] else []) + NodesOf(all[1..])
  }

  /** The first node with the given id, as the search looks it up. */
  function NodeAt(nodes: seq<Node>, id: string): Node {
    if nodes == [] then Node("", {}, {})
    else if nodes[0].id == id then nodes[0]
    else NodeAt(nodes[1..], id)
  }

  function NeedersOf(nodes: seq<Node>, cap: string): (r: seq<string>) {
    if nodes == [] then []
    else (if cap in nodes[0].need then [nodes[0].id] else []) + NeedersOf(nodes[1..], cap)
  }

  lemma {:induction false} NeedersMembers(nodes: seq<Node>, cap: string, id: string)
    ensures id in NeedersOf(nodes, cap) <==> exists n :: n in nodes && n.id == id && cap in n.need
  {
    if nodes != [] {
      NeedersMembers(nodes[1..], cap, id);
      assert nodes == [nodes[0]] + nodes[1..];
    }
  }

  // ----- One expansion ----------------------------------------------------------

  function Held(nodes: seq<Node>, f: Frame): set<string> {
    f.held + NodeAt(nodes, f.cur).grant
  }

  function Step(f: Frame, held: set<string>, next: string): Frame {
    Frame(next, f.visit + {next}, f.path + [next], held)
  }

  function PushNeeders(f: Frame, held: set<string>, needers: seq<string>): seq<Frame> {
    if needers == [] then []
    else
      var n := |needers| - 1;
      PushNeeders(f, held, needers[..n]) +
      (if needers[n] in f.visit then [] else [Step(f, held, needers[n])])
  }

  lemma {:induction false} PushNeedersMembers(f: Frame, held: set<string>, needers: seq<string>, g: Frame)
    ensures g in PushNeeders(f, held, needers) <==>
            exists id :: id in needers && id !in f.visit && g == Step(f, held, id)
  {
    if needers != [] {
      var n := |needers| - 1;
      PushNeedersMembers(f, held, needers[..n], g);
      assert needers == needers[..n] + [needers[n]];
    }
  }

  function PushCaps(nodes: seq<Node>, f: Frame, held: set<string>, caps: seq<string>): seq<Frame> {
    if caps == [] then []
    else
      PushCaps(nodes, f, held, caps[..|caps| - 1]) + PushNeeders(f, held, NeedersOf(nodes, caps[|caps| - 1]))
  }

  ghost predicate Pushable(nodes: seq<Node>, f: Frame, cap: string, id: string) {
    id in NeedersOf(nodes, cap) && id !in f.visit
  }

  lemma {:induction false} PushCapsMembers(nodes: seq<Node>, f: Frame, held: set<string>, caps: seq<string>, g: Frame)
    ensures g in PushCaps(nodes, f, held, caps) <==>
            exists cap, id :: cap in caps && Pushable(nodes, f, cap, id) && g == Step(f, held, id)
  {
    if caps != [] {
      var init, cap := caps[..|caps| - 1], caps[|caps| - 1];
      PushCapsMembers(nodes, f, held, init, g);
      PushNeedersMembers(f, held, NeedersOf(nodes, cap), g);
      assert caps == init + [cap];
      if g in PushNeeders(f, held, NeedersOf(nodes, cap)) {
        var id :| id in NeedersOf(nodes, cap) && id !in f.visit && g == Step(f, held, id);
        assert Pushable(nodes, f, cap, id);
      }
    }
  }

  /** The frames one turn of the loop pushes: one per held capability and finding that
      requires it, so a successor shared by two capabilities is pushed twice. */
  ghost function Expand(nodes: seq<Node>, f: Frame): seq<Frame> {
    if |f.path| >= MAX_LENGTH then []
    else PushCaps(nodes, f, Held(nodes, f), SetKeys(Held(nodes, f)))
  }

  // ----- The order frames are popped in -------------------------------------------

  ghost function Expander(nodes: seq<Node>): Frame -> seq<Frame> {
    (f: Frame) => Expand(nodes, f)
  }

  /** `todo` lists the frames popped, in order, from `stack` until it is empty. */
  ghost predicate Run(nodes: seq<Node>, stack: seq<Frame>, todo: seq<Frame>) {
    Pops(Expander(nodes), stack, todo)
  }

  lemma RunPop(nodes: seq<Node>, stack: seq<Frame>, todo: seq<Frame>)
    requires Run(nodes, stack, todo) && stack != []
    ensures todo != [] && todo[0] == Top(stack) && todo == [todo[0]] + todo[1..]
    ensures Run(nodes, Below(stack) + Expand(nodes, Top(stack)), todo[1..])
  {
    PopsFirst(Expander(nodes), stack, todo);
  }

  function Rank(f: Frame): nat {
    if |f.path| >= MAX_LENGTH then 0 else MAX_LENGTH - |f.path|
  }

  lemma ExpandShrinks(nodes: seq<Node>, f: Frame, g: Frame)
    requires g in Expand(nodes, f)
    ensures Rank(g) < Rank(f)
  {
    PushCapsMembers(nodes, f, Held(nodes, f), SetKeys(Held(nodes, f)), g);
  }

  /** The search terminates: from every stack, however malformed its frames, there is a
      finite run.  A frame's expansions are all one longer, and none is made at length 5. */
  lemma RunExists(nodes: seq<Node>, stack: seq<Frame>) returns (todo: seq<Frame>)
    ensures Run(nodes, stack, todo)
  {
    var rank := (f: Frame) => Rank(f);
    forall f, g | g in Expander(nodes)(f) ensures rank(g) < rank(f) { ExpandShrinks(nodes, f, g); }
    todo := PopsExist(Expander(nodes), rank, stack);
  }

  ghost function Order(nodes: seq<Node>, stack: seq<Frame>): (todo: seq<Frame>)
    ensures Run(nodes, stack, todo)
  {
    assert exists todo :: Run(nodes, stack, todo) by { var w := RunExists(nodes, stack); }
    var todo :| Run(nodes, stack, todo);
    todo
  }

  lemma RunUnique(nodes: seq<Node>, stack: seq<Frame>, a: seq<Frame>, b: seq<Frame>)
    requires Run(nodes, stack, a) && Run(nodes, stack, b)
    ensures a == b
  {
    PopsUnique(Expander(nodes), stack, a, b);
  }

  function Start(id: string): Frame {
    Frame(id, {id}, [id], {})
  }

  /** The start frames of the nodes from `k` on as one stack, the first of them on top. */
  ghost function Starts(nodes: seq<Node>, k: nat): seq<Frame>
    requires k <= |nodes|
    decreases |nodes| - k
  {
    if k == |nodes| then [] else Starts(nodes, k + 1) + [Start(nodes[k].id)]
  }

  // ----- Proposals -----------------------------------------------------------------

  ghost function MemberKey(path: seq<string>): string {
    Join(Ascending(path), '|')
  }

  ghost function ProposalOf(nodes: seq<Node>, f: Frame): Proposal {
    Proposal(f.path, SetKeys(Held(nodes, f)))
  }

  /** The proposals made from a run of frames: the first frame of each new member key,
      while there is room. */
  ghost function Propose(nodes: seq<Node>, minLength: int, room: nat, frames: seq<Frame>,
                         seen: set<string>): (r: seq<Proposal>)
    decreases |frames|
  {
    if frames == [] || room == 0 then []
    else
      var f := frames[0];
      if |f.path| >= minLength && MemberKey(f.path) !in seen
      then [ProposalOf(nodes, f)] + Propose(nodes, minLength, room - 1, frames[1..], seen + {MemberKey(f.path)})
      else Propose(nodes, minLength, room, frames[1..], seen)
  }

  ghost function Proposals(nodes: seq<Node>, minLength: int): seq<Proposal> {
    Propose(nodes, minLength, MAX_PROPOSALS, Order(nodes, Starts(nodes, 0)), {})
  }

  lemma ProposeStep(nodes: seq<Node>, minLength: int, room: nat, f: Frame, frames: seq<Frame>, seen: set<string>)
    requires room > 0
    ensures Propose(nodes, minLength, room, [f] + frames, seen) ==
            if |f.path| >= minLength && MemberKey(f.path) !in seen
            then [ProposalOf(nodes, f)] + Propose(nodes, minLength, room - 1, frames, seen + {MemberKey(f.path)})
            else Propose(nodes, minLength, room, frames, seen)
  {
    assert ([f] + frames)[1..] == frames;
  }

  // ----- The search ------------------------------------------------------------------

  lemma PushNeedersStep(f: Frame, held: set<string>, needers: seq<string>, j: nat)
    requires j < |needers|
    ensures PushNeeders(f, held, needers[..j + 1]) ==
            PushNeeders(f, held, needers[..j]) + if needers[j] in f.visit then [] else [Step(f, held, needers[j])]
  {
    assert needers[..j + 1][..j] == needers[..j];
  }

  lemma PushCapsStep(nodes: seq<Node>, f: Frame, held: set<string>, caps: seq<string>, i: nat)
    requires i < |caps|
    ensures PushCaps(nodes, f, held, caps[..i + 1]) ==
            PushCaps(nodes, f, held, caps[..i]) + PushNeeders(f, held, NeedersOf(nodes, caps[i]))
  {
    assert caps[..i + 1][..i] == caps[..i];
  }

  method PushAll(f: Frame, held: set<string>, needers: seq<string>, below: seq<Frame>) returns (stack: seq<Frame>)
    ensures stack == below + PushNeeders(f, held, needers)
  {
    stack := below;
    for j := 0 to |needers|
      invariant stack == below + PushNeeders(f, held, needers[..j])
    {
      PushNeedersStep(f, held, needers, j);
      if needers[j] !in f.visit {
        var g := Frame(needers[j], f.visit + {needers[j]}, f.path + [needers[j]], held);
        AppendAssociative(below, PushNeeders(f, held, needers[..j]), [g]);
        stack := stack + [g];
      }
    }
    assert needers[..|needers|] == needers;
  }

  /** The two nested loops at the end of a turn, appending to the stack. */
  method PushSuccessors(nodes: seq<Node>, f: Frame, held: set<string>, below: seq<Frame>) returns (stack: seq<Frame>)
    ensures stack == below + PushCaps(nodes, f, held, SetKeys(held))
  {
    stack := below;
    var caps := SortedKeys(held);
    for i := 0 to |caps|
      invariant stack == below + PushCaps(nodes, f, held, caps[..i])
    {
      var needers := NeedersOf(nodes, caps[i]);
      PushCapsStep(nodes, f, held, caps, i);
      AppendAssociative(below, PushCaps(nodes, f, held, caps[..i]), PushNeeders(f, held, needers));
      stack := PushAll(f, held, needers, stack);
    }
    assert caps[..|caps|] == caps;
  }

  /** One turn of the loop, up to the pushes: pop `f` and propose it if its key is new. */
  method Turn(nodes: seq<Node>, minLength: int, f: Frame, held: set<string>, chains0: seq<Proposal>, seen0: set<string>,
              ghost todo: seq<Frame>)
    returns (chains: seq<Proposal>, seen: set<string>)
    requires |seen0| < MAX_PROPOSALS
    requires held == Held(nodes, f)
    ensures |seen| <= MAX_PROPOSALS
    ensures chains + Propose(nodes, minLength, MAX_PROPOSALS - |seen|, todo, seen) ==
            chains0 + Propose(nodes, minLength, MAX_PROPOSALS - |seen0|, [f] + todo, seen0)
  {
    chains, seen := chains0, seen0;
    ghost var room: nat := MAX_PROPOSALS - |seen0|;
    ProposeStep(nodes, minLength, room, f, todo, seen0);
    if |f.path| >= minLength {
      var sorted := SortStrings(f.path);
      var key := Join(sorted, '|');
      if key !in seen {
        seen := seen + {key};
        var capabilities := SortedKeys(held);
        var proposal := Proposal(f.path, capabilities);
        AppendAssociative(chains, [proposal], Propose(nodes, minLength, room - 1, todo, seen));
        chains := chains + [proposal];
      }
    }
  }

  /** The inner loop: search from one start node until its stack is empty or the cap is hit.
      `later` holds the start frames still to come, `todo0` the pops still to make. */
  method SearchFrom(nodes: seq<Node>, minLength: int, id: string, chains0: seq<Proposal>, seen0: set<string>,
                    ghost later: seq<Frame>, ghost todo0: seq<Frame>)
    returns (chains: seq<Proposal>, seen: set<string>, ghost todo: seq<Frame>)
    requires |seen0| < MAX_PROPOSALS
    requires Run(nodes, later + [Start(id)], todo0)
    ensures |seen| <= MAX_PROPOSALS
    ensures |seen| < MAX_PROPOSALS ==> Run(nodes, later, todo)
    ensures chains + Propose(nodes, minLength, MAX_PROPOSALS - |seen|, todo, seen) ==
            chains0 + Propose(nodes, minLength, MAX_PROPOSALS - |seen0|, todo0, seen0)
  {
    chains, seen, todo := chains0, seen0, todo0;
    var stack := [Start(id)];
    while stack != []
      invariant Run(nodes, later + stack, todo)
      invariant |seen| < MAX_PROPOSALS
      invariant chains + Propose(nodes, minLength, MAX_PROPOSALS - |seen|, todo, seen) ==
                chains0 + Propose(nodes, minLength, MAX_PROPOSALS - |seen0|, todo0, seen0)
      decreases |todo|
    {
      var f := stack[|stack| - 1];
      BelowAppend(later, stack);
      RunPop(nodes, later + stack, todo);
      stack := stack[..|stack| - 1];
      todo := todo[1..];
      var held := f.held + NodeAt(nodes, f.cur).grant;
      chains, seen := Turn(nodes, minLength, f, held, chains, seen, todo);
      if |seen| >= MAX_PROPOSALS {
        break;
      }
      AppendAssociative(later, stack, Expand(nodes, f));
      if |f.path| >= MAX_LENGTH {
        assert stack + Expand(nodes, f) == stack;
        continue;
      }
      stack := PushSuccessors(nodes, f, held, stack);
    }
    assert later + [] == later;
  }

  lemma SearchDone(nodes: seq<Node>, minLength: int, room: nat, todo: seq<Frame>, seen: set<string>)
    requires room == 0 || Run(nodes, [], todo)
    ensures Propose(nodes, minLength, room, todo, seen) == []
  {
  }

  /** The outer loop, over the start nodes. */
  method SearchStarts(nodes: seq<Node>, minLength: int, ghost todo0: seq<Frame>) returns (chains: seq<Proposal>)
    requires Run(nodes, Starts(nodes, 0), todo0)
    ensures chains == Propose(nodes, minLength, MAX_PROPOSALS, todo0, {})
  {
    chains := [];
    var seen: set<string> := {};
    var k := 0;
    ghost var todo, goal := todo0, Propose(nodes, minLength, MAX_PROPOSALS, todo0, {});
    assert [] + goal == goal;
    while k < |nodes| && |seen| < MAX_PROPOSALS
      invariant 0 <= k <= |nodes| && |seen| <= MAX_PROPOSALS
      invariant |seen| < MAX_PROPOSALS ==> Run(nodes, Starts(nodes, k), todo)
      invariant chains + Propose(nodes, minLength, MAX_PROPOSALS - |seen|, todo, seen) == goal
      decreases |nodes| - k
    {
      chains, seen, todo := SearchFrom(nodes, minLength, nodes[k].id, chains, seen, Starts(nodes, k + 1), todo);
      k := k + 1;
    }
    SearchDone(nodes, minLength, MAX_PROPOSALS - |seen|, todo, seen);
  }

  /** `FindChains`. */
  method FindChains(all: seq<Finding>, minLength: int) returns (chains: seq<Proposal>)
    ensures chains == Proposals(NodesOf(all), minLength)
  {
    var nodes := NodesOf(all);
    chains := SearchStarts(nodes, minLength, Order(nodes, Starts(nodes, 0)));
  }
}
