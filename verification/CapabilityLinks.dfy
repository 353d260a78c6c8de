/** `BuildCapabilityIndex` and `FindLinks`: the granted-to-required join. */
module CapabilityLinks {
  import opened Ordering
  import opened Findings
  import Capabilities

  datatype Entry = Entry(cap: string, ids: seq<string>)

  datatype Link = Link(from: string, to: string, capability: string)

  datatype Side = Granted | Required

  function Labels(side: Side, f: Finding): set<string> {
    if side.Granted? then Grants(f) else Needs(f)
  }

  // ----- The index ---------------------------------------------------------------

  function IdsOf(list: seq<Entry>, cap: string): seq<string> {
    if list == [] then [] else if list[0].cap == cap then list[0].ids else IdsOf(list[1..], cap)
  }

  function Appended(list: seq<Entry>, cap: string, id: string): seq<Entry> {
    if list == [] then [Entry(cap, [id])]
    else if list[0].cap == cap then [Entry(cap, list[0].ids + [id])] + list[1..]
    else [list[0]] + Appended(list[1..], cap, id)
  }

  lemma {:induction false} AppendedSkip(list: seq<Entry>, cap: string, id: string, i: nat)
    requires i <= |list| && forall j :: 0 <= j < i ==> list[j].cap != cap
    ensures Appended(list, cap, id) == list[..i] + Appended(list[i..], cap, id)
  {
    if i > 0 {
      var rest := list[1..];
      forall j | 0 <= j < i - 1 ensures rest[j].cap != cap { assert rest[j] == list[j + 1]; }
      AppendedSkip(rest, cap, id, i - 1);
      assert rest[i - 1..] == list[i..];
      assert list[..i] == [list[0]] + rest[..i - 1];
      AppendAssociative([list[0]], rest[..i - 1], Appended(list[i..], cap, id));
    } else {
      assert list[0..] == list;
    }
  }

  /** `granted.setdefault(cap, []).append(id)`. */
  method AppendId(list: seq<Entry>, cap: string, id: string) returns (r: seq<Entry>)
    ensures r == Appended(list, cap, id)
  {
    for i := 0 to |list|
      invariant forall j :: 0 <= j < i ==> list[j].cap != cap
    {
      if list[i].cap == cap {
        AppendedSkip(list, cap, id, i);
        assert list[i..][1..] == list[i + 1..];
        return list[i := Entry(cap, list[i].ids + [id])];
      }
    }
    AppendedSkip(list, cap, id, |list|);
    return list + [Entry(cap, [id])];
  }

  ghost predicate DistinctCaps(list: seq<Entry>) {
    forall i, j :: 0 <= i < j < |list| ==> list[i].cap != list[j].cap
  }

  ghost predicate HasCap(list: seq<Entry>, cap: string) {
    exists i :: 0 <= i < |list| && list[i].cap == cap
  }

  lemma {:induction false} AppendedEffect(list: seq<Entry>, cap: string, id: string)
    ensures forall c :: IdsOf(Appended(list, cap, id), c) == IdsOf(list, c) + if c == cap then [id] else []
    ensures forall i :: 0 <= i < |Appended(list, cap, id)| ==>
                          Appended(list, cap, id)[i].cap == if i < |list| then list[i].cap else cap
    ensures |Appended(list, cap, id)| == if HasCap(list, cap) then |list| else |list| + 1
  {
    if list != [] && list[0].cap != cap {
      AppendedEffect(list[1..], cap, id);
      var r := Appended(list[1..], cap, id);
      assert Appended(list, cap, id)[1..] == r;
      if HasCap(list, cap) {
        var i :| 0 <= i < |list| && list[i].cap == cap;
        assert list[1..][i - 1].cap == cap;
      }
    }
  }

  /** The labels of an index, in its order. */
  ghost function Caps(list: seq<Entry>): seq<string> {
    seq(|list|, i requires 0 <= i < |list| => list[i].cap)
  }

  /** The labels without their repeats, each where it is first seen. */
  ghost function FirstSeen(labels: seq<string>): seq<string> {
    if labels == [] then []
    else
      var seen, last := FirstSeen(labels[..|labels| - 1]), labels[|labels| - 1];
      if last in seen then seen else seen + [last]
  }

  lemma FirstSeenPush(run: seq<string>, cap: string)
    ensures FirstSeen(run + [cap]) == if cap in FirstSeen(run) then FirstSeen(run) else FirstSeen(run) + [cap]
  {
    assert (run + [cap])[..|run|] == run;
  }

  lemma CapsHave(list: seq<Entry>, cap: string)
    ensures cap in Caps(list) <==> HasCap(list, cap)
  {
    if HasCap(list, cap) {
      var i :| 0 <= i < |list| && list[i].cap == cap;
      assert Caps(list)[i] == cap;
    }
  }

  lemma AppendedCaps(list: seq<Entry>, cap: string, id: string)
    ensures Caps(Appended(list, cap, id)) == if cap in Caps(list) then Caps(list) else Caps(list) + [cap]
  {
    AppendedEffect(list, cap, id);
    CapsHave(list, cap);
  }

  /** The labels of the live findings, in load order, those of one finding sorted. */
  ghost function LabelRun(all: seq<Finding>, side: Side): seq<string> {
    if all == [] then []
    else
      var f := all[|all| - 1];
      LabelRun(all[..|all| - 1], side) + if Live(f) then SetKeys(Labels(side, f)) else []
  }

  lemma LabelRunPush(all: seq<Finding>, f: Finding, side: Side)
    ensures LabelRun(all + [f], side)
            == if Live(f) then LabelRun(all, side) + SetKeys(Labels(side, f)) else LabelRun(all, side)
  {
    assert (all + [f])[..|all|] == all;
  }

  /** The ids of the live findings that carry `cap` on one side, in load order. */
  ghost function Carriers(all: seq<Finding>, side: Side, cap: string): seq<string> {
    if all == [] then []
    else
      var f := all[|all| - 1];
      Carriers(all[..|all| - 1], side, cap) + if Live(f) && cap in Labels(side, f) then [f.id] else []
  }

  lemma CarriersPush(all: seq<Finding>, f: Finding, side: Side, cap: string)
    ensures Carriers(all + [f], side, cap) == Carriers(all, side, cap)
            + if Live(f) && cap in Labels(side, f) then [f.id] else []
  {
    assert (all + [f])[..|all|] == all;
  }

  /** The list holds exactly the carriers of every label, in one entry per label. */
  ghost predicate Holds(list: seq<Entry>, all: seq<Finding>, side: Side) {
    && DistinctCaps(list)
    && forall cap :: IdsOf(list, cap) == Carriers(all, side, cap)
  }

  /** The list is the index of one side: its labels in the order in which they are first met,
      each with its carriers. */
  ghost predicate Indexes(list: seq<Entry>, all: seq<Finding>, side: Side) {
    Holds(list, all, side) && Caps(list) == FirstSeen(LabelRun(all, side))
  }

  lemma AppendedDistinct(list: seq<Entry>, cap: string, id: string)
    requires DistinctCaps(list)
    ensures DistinctCaps(Appended(list, cap, id))
  {
    AppendedEffect(list, cap, id);
  }

  /** The carriers with some labels of one more live finding added. */
  ghost predicate HoldsSome(list: seq<Entry>, before: seq<Finding>, side: Side, id: string, done: seq<string>) {
    forall c :: IdsOf(list, c) == Carriers(before, side, c) + if c in done then [id] else []
  }

  ghost predicate Halfway(list: seq<Entry>, before: seq<Finding>, side: Side, id: string, done: seq<string>) {
    && DistinctCaps(list)
    && HoldsSome(list, before, side, id, done)
    && Caps(list) == FirstSeen(LabelRun(before, side) + done)
  }

  lemma HoldsMore(list: seq<Entry>, before: seq<Finding>, side: Side, id: string, done: seq<string>, cap: string)
    requires HoldsSome(list, before, side, id, done) && cap !in done
    ensures HoldsSome(Appended(list, cap, id), before, side, id, done + [cap])
  {
    AppendedEffect(list, cap, id);
  }

  lemma CapsMore(list: seq<Entry>, run: seq<string>, done: seq<string>, cap: string, id: string)
    requires Caps(list) == FirstSeen(run + done)
    ensures Caps(Appended(list, cap, id)) == FirstSeen(run + (done + [cap]))
  {
    AppendedCaps(list, cap, id);
    FirstSeenPush(run + done, cap);
    AppendAssociative(run, done, [cap]);
  }

  lemma HalfwayStep(list: seq<Entry>, before: seq<Finding>, side: Side, id: string, done: seq<string>, cap: string)
    requires Halfway(list, before, side, id, done) && cap !in done
    ensures Halfway(Appended(list, cap, id), before, side, id, done + [cap])
  {
    AppendedDistinct(list, cap, id);
    HoldsMore(list, before, side, id, done, cap);
    CapsMore(list, LabelRun(before, side), done, cap, id);
  }

  lemma HalfwayStart(list: seq<Entry>, before: seq<Finding>, side: Side, id: string)
    requires Indexes(list, before, side)
    ensures Halfway(list, before, side, id, [])
  {
    assert LabelRun(before, side) + [] == LabelRun(before, side);
  }

  lemma HalfwayEnd(list: seq<Entry>, before: seq<Finding>, side: Side, f: Finding)
    requires Live(f) && Halfway(list, before, side, f.id, SetKeys(Labels(side, f)))
    ensures Indexes(list, before + [f], side)
  {
    LabelRunPush(before, f, side);
    SetKeysSorted(Labels(side, f));
    forall c ensures IdsOf(list, c) == Carriers(before + [f], side, c) {
      CarriersPush(before, f, side, c);
      assert c in SetKeys(Labels(side, f)) <==> c in SetOf(SetKeys(Labels(side, f)));
    }
  }

  /** Adds one live finding's labels to an index. */
  method IndexFinding(list0: seq<Entry>, ghost before: seq<Finding>, side: Side, f: Finding, labels: seq<string>)
    returns (list: seq<Entry>)
    requires Indexes(list0, before, side) && Live(f) && labels == SetKeys(Labels(side, f))
    ensures Indexes(list, before + [f], side)
  {
    list := list0;
    SetKeysSorted(Labels(side, f));
    HalfwayStart(list, before, side, f.id);
    for i := 0 to |labels|
      invariant Halfway(list, before, side, f.id, labels[..i])
    {
      assert labels[..i + 1] == labels[..i] + [labels[i]];
      HalfwayStep(list, before, side, f.id, labels[..i], labels[i]);
      list := AppendId(list, labels[i], f.id);
    }
    assert labels[..|labels|] == labels;
    HalfwayEnd(list, before, side, f);
  }

  method BuildCapabilityIndex(all: seq<Finding>) returns (granted: seq<Entry>, required: seq<Entry>)
    ensures Indexes(granted, all, Granted)
    ensures Indexes(required, all, Required)
  {
    granted, required := [], [];
    for i := 0 to |all|
      invariant Indexes(granted, all[..i], Granted)
      invariant Indexes(required, all[..i], Required)
    {
      var f := all[i];
      assert all[..i + 1] == all[..i] + [f];
      if Live(f) {
        var g := Capabilities.NormalizeLabels(f.granted);
        var r := Capabilities.NormalizeLabels(f.required);
        granted := IndexFinding(granted, all[..i], Granted, f, g);
        required := IndexFinding(required, all[..i], Required, f, r);
      } else {
        forall side, cap ensures Carriers(all[..i] + [f], side, cap) == Carriers(all[..i], side, cap) {
          CarriersPush(all[..i], f, side, cap);
        }
        LabelRunPush(all[..i], f, Granted);
        LabelRunPush(all[..i], f, Required);
      }
    }
    assert all[..|all|] == all;
  }

  // ----- The join -------------------------------------------------------------------

  ghost function Row(from: string, needers: seq<string>, cap: string): seq<Link> {
    if needers == [] then []
    else
      var to := needers[|needers| - 1];
      Row(from, needers[..|needers| - 1], cap) + if from == to then [] else [Link(from, to, cap)]
  }

  ghost function Grid(granters: seq<string>, needers: seq<string>, cap: string): seq<Link> {
    if granters == [] then []
    else Grid(granters[..|granters| - 1], needers, cap) + Row(granters[|granters| - 1], needers, cap)
  }

  ghost function Joined(granted: seq<Entry>, required: seq<Entry>, k: nat): seq<Link>
    requires k <= |required|
  {
    if k == 0 then []
    else
      var cap := required[k - 1].cap;
      Joined(granted, required, k - 1) + Grid(IdsOf(granted, cap), IdsOf(required, cap), cap)
  }

  method JoinRow(links0: seq<Link>, from: string, needers: seq<string>, cap: string) returns (links: seq<Link>)
    ensures links == links0 + Row(from, needers, cap)
  {
    links := links0;
    for i := 0 to |needers|
      invariant links == links0 + Row(from, needers[..i], cap)
    {
      assert needers[..i + 1][..i] == needers[..i];
      if from != needers[i] {
        AppendAssociative(links0, Row(from, needers[..i], cap), [Link(from, needers[i], cap)]);
        links := links + [Link(from, needers[i], cap)];
      }
    }
    assert needers[..|needers|] == needers;
  }

  method JoinGrid(links0: seq<Link>, granters: seq<string>, needers: seq<string>, cap: string)
    returns (links: seq<Link>)
    ensures links == links0 + Grid(granters, needers, cap)
  {
    links := links0;
    for i := 0 to |granters|
      invariant links == links0 + Grid(granters[..i], needers, cap)
    {
      assert granters[..i + 1][..i] == granters[..i];
      AppendAssociative(links0, Grid(granters[..i], needers, cap), Row(granters[i], needers, cap));
      links := JoinRow(links, granters[i], needers, cap);
    }
    assert granters[..|granters|] == granters;
  }

  /** A link the finding set carries: `a` and `b` are different live findings, `a` grants
      the capability and `b` requires it. */
  ghost predicate Carries(all: seq<Finding>, side: Side, id: string, cap: string) {
    exists f :: f in all && Live(f) && f.id == id && cap in Labels(side, f)
  }

  ghost predicate LinkHolds(all: seq<Finding>, l: Link) {
    l.from != l.to && Carries(all, Granted, l.from, l.capability) && Carries(all, Required, l.to, l.capability)
  }

  /** The join is exact: every link that holds is listed, once, and nothing else is. */
  ghost predicate LinksExact(all: seq<Finding>, links: seq<Link>) {
    Distinct(links) && forall l :: l in links <==> LinkHolds(all, l)
  }

  /** The list is the join of the two indexes, label by label. */
  ghost predicate IsJoin(all: seq<Finding>, links: seq<Link>) {
    exists granted, required ::
      Indexes(granted, all, Granted) && Indexes(required, all, Required)
        && links == Joined(granted, required, |required|)
  }

  method FindLinks(all: seq<Finding>) returns (links: seq<Link>)
    ensures IsJoin(all, links)
    ensures WellKeyed(all) ==> LinksExact(all, links)
  {
    var granted, required := BuildCapabilityIndex(all);
    links := [];
    for k := 0 to |required|
      invariant links == Joined(granted, required, k)
    {
      var cap := required[k].cap;
      var granters, needers := IdsOf(granted, cap), IdsOf(required, cap);
      links := JoinGrid(links, granters, needers, cap);
    }
    if WellKeyed(all) {
      JoinedExact(all, granted, required);
    }
  }

  // ----- Why the join is exact ---------------------------------------------------------

  lemma CarriesPush(init: seq<Finding>, f: Finding, side: Side, id: string, cap: string)
    ensures Carries(init + [f], side, id, cap) <==>
            Carries(init, side, id, cap) || (Live(f) && f.id == id && cap in Labels(side, f))
  {
    assert f in init + [f];
  }

  lemma NewId(all: seq<Finding>)
    requires WellKeyed(all) && all != []
    ensures WellKeyed(all[..|all| - 1])
    ensures forall g :: g in all[..|all| - 1] ==> g.id != all[|all| - 1].id
  {
    var init := all[..|all| - 1];
    forall g | g in init ensures g.id != all[|all| - 1].id {
      var i :| 0 <= i < |init| && init[i] == g;
      assert all[i] == g;
    }
  }

  lemma {:induction false} CarriersExact(all: seq<Finding>, side: Side, cap: string)
    ensures forall id :: id in Carriers(all, side, cap) <==> Carries(all, side, id, cap)
    ensures WellKeyed(all) ==> Distinct(Carriers(all, side, cap))
  {
    if all != [] {
      var init, f := all[..|all| - 1], all[|all| - 1];
      CarriersExact(init, side, cap);
      SplitLast(all);
      forall id ensures id in Carriers(all, side, cap) <==> Carries(all, side, id, cap) {
        CarriesPush(init, f, side, id, cap);
      }
      if WellKeyed(all) {
        NewId(all);
        assert f.id !in Carriers(init, side, cap);
      }
    }
  }

  lemma {:induction false} RowExact(from: string, needers: seq<string>, cap: string)
    requires Distinct(needers)
    ensures Distinct(Row(from, needers, cap))
    ensures forall l :: l in Row(from, needers, cap) <==>
            l.from == from && l.to in needers && l.to != from && l.capability == cap
  {
    if needers != [] {
      RowExact(from, needers[..|needers| - 1], cap);
      SplitLast(needers);
    }
  }

  lemma {:induction false} GridExact(granters: seq<string>, needers: seq<string>, cap: string)
    requires Distinct(granters) && Distinct(needers)
    ensures Distinct(Grid(granters, needers, cap))
    ensures forall l :: l in Grid(granters, needers, cap) <==>
            l.from in granters && l.to in needers && l.to != l.from && l.capability == cap
  {
    if granters != [] {
      var init, last := granters[..|granters| - 1], granters[|granters| - 1];
      GridExact(init, needers, cap);
      RowExact(last, needers, cap);
      SplitLast(granters);
      assert last !in init;
      DistinctConcat(Grid(init, needers, cap), Row(last, needers, cap));
    }
  }

  lemma DistinctConcat<T>(s: seq<T>, t: seq<T>)
    requires Distinct(s) && Distinct(t)
    requires forall x :: x in s ==> x !in t
    ensures Distinct(s + t)
  {
    forall i, j | 0 <= i < j < |s + t| ensures (s + t)[i] != (s + t)[j] {
      if i < |s| <= j {
        assert s[i] in s && t[j - |s|] in t;
      }
    }
  }

  lemma {:induction false} JoinedUpTo(all: seq<Finding>, granted: seq<Entry>, required: seq<Entry>, k: nat)
    requires WellKeyed(all) && Holds(granted, all, Granted) && Holds(required, all, Required) && k <= |required|
    ensures Distinct(Joined(granted, required, k))
    ensures forall l :: l in Joined(granted, required, k) <==> LinkHolds(all, l) && HasCap(required[..k], l.capability)
  {
    if k > 0 {
      JoinedUpTo(all, granted, required, k - 1);
      var cap := required[k - 1].cap;
      LastGridExact(all, granted, required, cap);
      assert !HasCap(required[..k - 1], cap);
      forall c ensures HasCap(required[..k], c) <==> HasCap(required[..k - 1], c) || c == cap {
        HasCapPush(required, k - 1, c);
      }
      DistinctConcat(Joined(granted, required, k - 1), Grid(IdsOf(granted, cap), IdsOf(required, cap), cap));
    }
  }

  lemma LastGridExact(all: seq<Finding>, granted: seq<Entry>, required: seq<Entry>, cap: string)
    requires WellKeyed(all) && Holds(granted, all, Granted) && Holds(required, all, Required)
    ensures var grid := Grid(IdsOf(granted, cap), IdsOf(required, cap), cap);
            Distinct(grid) && forall l :: l in grid <==> LinkHolds(all, l) && l.capability == cap
  {
    CarriersExact(all, Granted, cap);
    CarriersExact(all, Required, cap);
    GridExact(IdsOf(granted, cap), IdsOf(required, cap), cap);
  }

  lemma HasCapPush(list: seq<Entry>, k: nat, c: string)
    requires k < |list|
    ensures HasCap(list[..k + 1], c) <==> HasCap(list[..k], c) || c == list[k].cap
  {
    var more, less := list[..k + 1], list[..k];
    if HasCap(less, c) {
      var i :| 0 <= i < |less| && less[i].cap == c;
      assert more[i].cap == c;
    }
    if HasCap(more, c) {
      var i :| 0 <= i < |more| && more[i].cap == c;
      assert i == k || less[i].cap == c;
    }
    assert more[k].cap == list[k].cap;
  }

  lemma {:induction false} IdsNeedCap(list: seq<Entry>, cap: string)
    ensures IdsOf(list, cap) != [] ==> HasCap(list, cap)
  {
    if list != [] && list[0].cap != cap {
      IdsNeedCap(list[1..], cap);
      if HasCap(list[1..], cap) {
        var i :| 0 <= i < |list[1..]| && list[1..][i].cap == cap;
        assert list[i + 1].cap == cap;
      }
    }
  }

  lemma JoinedExact(all: seq<Finding>, granted: seq<Entry>, required: seq<Entry>)
    requires WellKeyed(all) && Holds(granted, all, Granted) && Holds(required, all, Required)
    ensures LinksExact(all, Joined(granted, required, |required|))
  {
    JoinedUpTo(all, granted, required, |required|);
    assert required[..|required|] == required;
    forall l | LinkHolds(all, l) ensures HasCap(required, l.capability) {
      CarriersExact(all, Required, l.capability);
      assert l.to in IdsOf(required, l.capability);
      IdsNeedCap(required, l.capability);
    }
  }
}
