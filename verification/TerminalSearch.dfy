/** `FindTerminalChainsMode`: the search for reachable terminal states, with capital. */
module TerminalSearch {
  import opened Ordering
  import opened Findings
  import Capabilities
  import opened StackSearch

  const MAX_PROPOSALS: nat := 500

  const ATTACKER_BASELINE: set<string> := {"call_any_entry_point"}

  datatype Capital = Capital(required: real, recoverable: real, irrecoverable: real, atomic: real, borrowable: real)

  datatype Node = Node(id: string, granted: set<string>, required: set<string>, capital: Capital)

  datatype Frame = Frame(cur: string, path: seq<string>, held: set<string>, capital: Capital)

  datatype Row = Row(path: seq<string>, terminal: string, terminals: seq<string>, finding: string,
                     totalRequired: real, breakdown: Capital, netAtRisk: real)

  function AddCapital(a: Capital, b: Capital): Capital {
    Capital(a.required + b.required, a.recoverable + b.recoverable, a.irrecoverable + b.irrecoverable,
            a.atomic + b.atomic, a.borrowable + b.borrowable)
  }

  // ----- The node table ------------------------------------------------------

  function Amount(v: Figure): real {
    if v.Number? then v.usd else 0.0
  }

  /** One finding's capital.  Only an absent `required_usd` falls back to the legacy flat
      field: a value that is not a number counts as zero. */
  function CapitalNode(a: Attacker): Capital {
    Capital(Amount(if a.required.Absent? then a.legacyRequired else a.required),
            Amount(a.recoverable), Amount(a.irrecoverable), Amount(a.atomic), Amount(a.borrowable))
  }

  predicate Admitted(f: Finding, includeHypothesis: bool) {
    Confirmed(f) || (includeHypothesis && Live(f))
  }

  function NodesOf(all: seq<Finding>, includeHypothesis: bool): seq<Node> {
    if all == [] then []
    else
      var f, rest := all[0], NodesOf(all[1..], includeHypothesis);
      (if Admitted(f, includeHypothesis) then [Node(f.id, Grants(f), Needs(f), CapitalNode(f.attacker))] else []) + rest
  }

  const NO_NODE: Node := Node("", {}, {}, Capital(0.0, 0.0, 0.0, 0.0, 0.0))

  function NodeAt(nodes: seq<Node>, id: string): Node {
    if nodes == [] then NO_NODE else if nodes[0].id == id then nodes[0] else NodeAt(nodes[1..], id)
  }

  function BaseOf(baseline: Option<set<string>>): set<string> {
    if baseline.None? then ATTACKER_BASELINE else baseline.value
  }

  // ----- One expansion ----------------------------------------------------------

  function Step(f: Frame, n: Node): Frame {
    Frame(n.id, f.path + [n.id], f.held + n.granted, AddCapital(f.capital, n.capital))
  }

  predicate CanFollow(f: Frame, n: Node) {
    n.id !in f.path && n.required <= f.held
  }

  function PushNext(nodes: seq<Node>, f: Frame): seq<Frame> {
    if nodes == [] then []
    else
      var n := nodes[|nodes| - 1];
      PushNext(nodes[..|nodes| - 1], f) + if CanFollow(f, n) then [Step(f, n)] else []
  }

  function Expand(nodes: seq<Node>, maxDepth: int, f: Frame): seq<Frame> {
    if |f.path| >= maxDepth then [] else PushNext(nodes, f)
  }

  lemma {:induction false} PushNextMembers(nodes: seq<Node>, f: Frame, g: Frame)
    ensures g in PushNext(nodes, f) <==> exists n :: n in nodes && CanFollow(f, n) && g == Step(f, n)
  {
    if nodes != [] {
      PushNextMembers(nodes[..|nodes| - 1], f, g);
      SplitLast(nodes);
    }
  }

  // ----- The order frames are popped in -------------------------------------------

  ghost function Expander(nodes: seq<Node>, maxDepth: int): Frame -> seq<Frame> {
    (f: Frame) => Expand(nodes, maxDepth, f)
  }

  /** `todo` lists the frames popped, in order, from `stack` until it is empty. */
  ghost predicate Run(nodes: seq<Node>, maxDepth: int, stack: seq<Frame>, todo: seq<Frame>) {
    Pops(Expander(nodes, maxDepth), stack, todo)
  }

  lemma RunPop(nodes: seq<Node>, maxDepth: int, stack: seq<Frame>, todo: seq<Frame>)
    requires Run(nodes, maxDepth, stack, todo) && stack != []
    ensures todo != [] && todo[0] == Top(stack) && todo == [todo[0]] + todo[1..]
    ensures Run(nodes, maxDepth, Below(stack) + Expand(nodes, maxDepth, Top(stack)), todo[1..])
  {
    PopsFirst(Expander(nodes, maxDepth), stack, todo);
  }

  function Ids(nodes: seq<Node>): set<string> {
    set n | n in nodes :: n.id
  }

  /** How many findings are not yet on the path.  A path never repeats a finding, so this
      drops at every push, whatever the depth limit. */
  ghost function Rank(nodes: seq<Node>, f: Frame): nat {
    |Ids(nodes) - SetOf(f.path)|
  }

  lemma SubsetSmaller<T>(a: set<T>, b: set<T>)
    requires a < b
    ensures |a| < |b|
  {
    assert b == a + (b - a) && b - a != {};
  }

  lemma StepRank(nodes: seq<Node>, f: Frame, n: Node)
    requires n in nodes && n.id !in f.path
    ensures Rank(nodes, Step(f, n)) < Rank(nodes, f)
  {
    SetOfPush(f.path, n.id);
    assert n.id in Ids(nodes) - SetOf(f.path);
    SubsetSmaller(Ids(nodes) - SetOf(f.path + [n.id]), Ids(nodes) - SetOf(f.path));
  }

  lemma ExpandShrinks(nodes: seq<Node>, maxDepth: int, f: Frame, g: Frame)
    requires g in Expand(nodes, maxDepth, f)
    ensures Rank(nodes, g) < Rank(nodes, f)
  {
    PushNextMembers(nodes, f, g);
    var n :| n in nodes && CanFollow(f, n) && g == Step(f, n);
    StepRank(nodes, f, n);
  }

  /** The search terminates for every finding set, baseline and depth limit. */
  lemma RunExists(nodes: seq<Node>, maxDepth: int, stack: seq<Frame>) returns (todo: seq<Frame>)
    ensures Run(nodes, maxDepth, stack, todo)
  {
    ghost var rank := (f: Frame) => Rank(nodes, f);
    forall f, g | g in Expander(nodes, maxDepth)(f) ensures rank(g) < rank(f) { ExpandShrinks(nodes, maxDepth, f, g); }
    todo := PopsExist(Expander(nodes, maxDepth), rank, stack);
  }

  ghost function Order(nodes: seq<Node>, maxDepth: int, stack: seq<Frame>): (todo: seq<Frame>)
    ensures Run(nodes, maxDepth, stack, todo)
  {
    assert exists todo :: Run(nodes, maxDepth, stack, todo) by { var w := RunExists(nodes, maxDepth, stack); }
    var todo :| Run(nodes, maxDepth, stack, todo);
    todo
  }

  function Start(base: set<string>, n: Node): Frame {
    Frame(n.id, [n.id], base + n.granted, n.capital)
  }

  ghost function Starts(nodes: seq<Node>, base: set<string>, k: nat): seq<Frame>
    requires k <= |nodes|
    decreases |nodes| - k
  {
    if k == |nodes| then []
    else Starts(nodes, base, k + 1) + if nodes[k].required <= base then [Start(base, nodes[k])] else []
  }

  // ----- Rows -------------------------------------------------------------------------

  function TerminalsIn(caps: seq<string>): seq<string> {
    if caps == [] then []
    else
      var cap := caps[|caps| - 1];
      TerminalsIn(caps[..|caps| - 1]) + if Capabilities.IsTerminal(cap) then [cap] else []
  }

  ghost function Terminals(n: Node): seq<string> {
    TerminalsIn(SetKeys(n.granted))
  }

  function MakeRow(f: Frame, terminals: seq<string>): Row
    requires terminals != []
  {
    Row(f.path, terminals[0], terminals, f.cur, f.capital.required, f.capital,
        f.capital.required - f.capital.recoverable)
  }

  ghost predicate Emits(nodes: seq<Node>, minLength: int, f: Frame) {
    |f.path| >= minLength && Terminals(NodeAt(nodes, f.cur)) != []
  }

  ghost function RowOf(nodes: seq<Node>, f: Frame): Row
    requires Terminals(NodeAt(nodes, f.cur)) != []
  {
    MakeRow(f, Terminals(NodeAt(nodes, f.cur)))
  }

  /** The rows emitted from a run of frames, with the keys already emitted in `seen`. */
  ghost function Emit(nodes: seq<Node>, minLength: int, frames: seq<Frame>, seen: set<string>): seq<Row>
    decreases |frames|
  {
    if frames == [] then []
    else
      var f, key := frames[0], Join(frames[0].path, '|');
      if Emits(nodes, minLength, f) && key !in seen
      then [RowOf(nodes, f)] + Emit(nodes, minLength, frames[1..], seen + {key})
      else Emit(nodes, minLength, frames[1..], seen)
  }

  lemma EmitStep(nodes: seq<Node>, minLength: int, f: Frame, frames: seq<Frame>, seen: set<string>)
    ensures Emit(nodes, minLength, [f] + frames, seen) ==
            if Emits(nodes, minLength, f) && Join(f.path, '|') !in seen
            then [RowOf(nodes, f)] + Emit(nodes, minLength, frames, seen + {Join(f.path, '|')})
            else Emit(nodes, minLength, frames, seen)
  {
    assert ([f] + frames)[1..] == frames;
  }

  /** The rows before sorting and capping. */
  ghost function Enumerated(nodes: seq<Node>, base: set<string>, maxDepth: int, minLength: int): seq<Row> {
    Emit(nodes, minLength, Order(nodes, maxDepth, Starts(nodes, base, 0)), {})
  }

  /** Shorter paths first, then cheaper ones. */
  predicate RowLeq(a: Row, b: Row) {
    |a.path| < |b.path| || (|a.path| == |b.path| && a.totalRequired <= b.totalRequired)
  }

  ghost function Ranked(rows: seq<Row>): seq<Row> {
    Sort(RowLeq, rows)
  }

  function Capped(rows: seq<Row>): seq<Row> {
    if |rows| > MAX_PROPOSALS then rows[..MAX_PROPOSALS] else rows
  }

  ghost function TerminalChains(all: seq<Finding>, baseline: Option<set<string>>, maxDepth: int, minLength: int,
                                includeHypothesis: bool): seq<Row>
  {
    Capped(Ranked(Enumerated(NodesOf(all, includeHypothesis), BaseOf(baseline), maxDepth, minLength)))
  }

  // ----- The search ---------------------------------------------------------------------

  method ListTerminals(granted: set<string>) returns (terminals: seq<string>)
    ensures terminals == TerminalsIn(SetKeys(granted))
  {
    var caps := SortedKeys(granted);
    terminals := [];
    for i := 0 to |caps|
      invariant terminals == TerminalsIn(caps[..i])
    {
      assert caps[..i + 1][..i] == caps[..i];
      if Capabilities.IsTerminal(caps[i]) {
        terminals := terminals + [caps[i]];
      }
    }
    assert caps[..|caps|] == caps;
  }

  /** `terminalPathDoc`: one row, if the path is long enough, new, and ends on a finding
      that grants a terminal capability. */
  method TerminalPathDoc(f: Frame, node: Node, seen0: set<string>, minLength: int)
    returns (row: Option<Row>, seen: set<string>)
    ensures var terminals := Terminals(node);
            if |f.path| >= minLength && Join(f.path, '|') !in seen0 && terminals != []
            then row == Some(MakeRow(f, terminals)) && seen == seen0 + {Join(f.path, '|')}
            else row == None && seen == seen0
  {
    row, seen := None, seen0;
    if |f.path| < minLength {
      return;
    }
    var key := Join(f.path, '|');
    if key in seen {
      return;
    }
    var terminals := ListTerminals(node.granted);
    if terminals == [] {
      return;
    }
    seen := seen + {key};
    row := Some(Row(f.path, terminals[0], terminals, f.cur, f.capital.required, f.capital,
                    f.capital.required - f.capital.recoverable));
  }

  method PushSuccessors(nodes: seq<Node>, f: Frame, below: seq<Frame>) returns (stack: seq<Frame>)
    ensures stack == below + PushNext(nodes, f)
  {
    stack := below;
    for i := 0 to |nodes|
      invariant stack == below + PushNext(nodes[..i], f)
    {
      assert nodes[..i + 1][..i] == nodes[..i];
      var n := nodes[i];
      if n.id in f.path {
        continue;
      }
      if !(n.required <= f.held) {
        continue;
      }
      var g := Frame(n.id, f.path + [n.id], f.held + n.granted, AddCapital(f.capital, n.capital));
      AppendAssociative(below, PushNext(nodes[..i], f), [g]);
      stack := stack + [g];
    }
    assert nodes[..|nodes|] == nodes;
  }

  /** The inner loop: search from one start frame. */
  method SearchFrom(nodes: seq<Node>, maxDepth: int, minLength: int, start: Frame, paths0: seq<Row>, seen0: set<string>,
                    ghost later: seq<Frame>, ghost todo0: seq<Frame>)
    returns (paths: seq<Row>, seen: set<string>, ghost todo: seq<Frame>)
    requires Run(nodes, maxDepth, later + [start], todo0)
    ensures Run(nodes, maxDepth, later, todo)
    ensures paths + Emit(nodes, minLength, todo, seen) == paths0 + Emit(nodes, minLength, todo0, seen0)
  {
    paths, seen, todo := paths0, seen0, todo0;
    var stack := [start];
    while stack != []
      invariant Run(nodes, maxDepth, later + stack, todo)
      invariant paths + Emit(nodes, minLength, todo, seen) == paths0 + Emit(nodes, minLength, todo0, seen0)
      decreases |todo|
    {
      var f := stack[|stack| - 1];
      BelowAppend(later, stack);
      RunPop(nodes, maxDepth, later + stack, todo);
      stack := stack[..|stack| - 1];
      todo := todo[1..];
      EmitStep(nodes, minLength, f, todo, seen);
      var row;
      row, seen := TerminalPathDoc(f, NodeAt(nodes, f.cur), seen, minLength);
      if row.Some? {
        AppendAssociative(paths, [row.value], Emit(nodes, minLength, todo, seen));
        paths := paths + [row.value];
      }
      AppendAssociative(later, stack, Expand(nodes, maxDepth, f));
      if |f.path| >= maxDepth {
        assert stack + Expand(nodes, maxDepth, f) == stack;
        continue;
      }
      stack := PushSuccessors(nodes, f, stack);
    }
    assert later + [] == later;
  }

  lemma EmitDone(nodes: seq<Node>, maxDepth: int, minLength: int, todo: seq<Frame>, seen: set<string>)
    requires Run(nodes, maxDepth, [], todo)
    ensures Emit(nodes, minLength, todo, seen) == []
  {
  }

  method Enumerate(nodes: seq<Node>, base: set<string>, maxDepth: int, minLength: int, ghost todo0: seq<Frame>)
    returns (paths: seq<Row>)
    requires Run(nodes, maxDepth, Starts(nodes, base, 0), todo0)
    ensures paths == Emit(nodes, minLength, todo0, {})
  {
    paths := [];
    var seen: set<string> := {};
    ghost var todo, goal := todo0, Emit(nodes, minLength, todo0, {});
    assert [] + goal == goal;
    for k := 0 to |nodes|
      invariant Run(nodes, maxDepth, Starts(nodes, base, k), todo)
      invariant paths + Emit(nodes, minLength, todo, seen) == goal
    {
      if !(nodes[k].required <= base) {
        assert Starts(nodes, base, k) == Starts(nodes, base, k + 1);
        continue;
      }
      var start := Frame(nodes[k].id, [nodes[k].id], base + nodes[k].granted, nodes[k].capital);
      paths, seen, todo := SearchFrom(nodes, maxDepth, minLength, start, paths, seen, Starts(nodes, base, k + 1), todo);
    }
    EmitDone(nodes, maxDepth, minLength, todo, seen);
  }

  method FindTerminalChainsMode(all: seq<Finding>, baseline: Option<set<string>>, maxDepth: int, minLength: int,
                                includeHypothesis: bool) returns (paths: seq<Row>)
    ensures paths == TerminalChains(all, baseline, maxDepth, minLength, includeHypothesis)
  {
    var nodes, base := NodesOf(all, includeHypothesis), BaseOf(baseline);
    paths := Enumerate(nodes, base, maxDepth, minLength, Order(nodes, maxDepth, Starts(nodes, base, 0)));
    paths := Sort(RowLeq, paths);
    if |paths| > MAX_PROPOSALS {
      paths := paths[..MAX_PROPOSALS];
    }
  }
}
