/** The order of the link list: by label as first required, then by granting and requiring finding in
    load order. */
module LinkOrder {
  import opened Ordering
  import opened Findings
  import opened CapabilityLinks
  import opened ReportMeaning
  import SearchMeaning
  import SearchOrder

  // ----- Labels in the order in which they are first met ------------------------------------------

  /** `x` occurs at a point before which `y` does not. */
  ghost predicate SeenBefore(labels: seq<string>, x: string, y: string) {
    exists p: nat :: p < |labels| && labels[p] == x && y !in labels[..p]
  }

  lemma SeenStill(labels: seq<string>, last: string, x: string, y: string)
    requires SeenBefore(labels, x, y)
    ensures SeenBefore(labels + [last], x, y)
  {
    var p: nat :| p < |labels| && labels[p] == x && y !in labels[..p];
    assert (labels + [last])[p] == x && (labels + [last])[..p] == labels[..p];
  }

  lemma SeenNow(labels: seq<string>, x: string, y: string)
    requires x in labels && y !in labels
    ensures SeenBefore(labels + [y], x, y)
  {
    var p :| 0 <= p < |labels| && labels[p] == x;
    assert (labels + [y])[p] == x && (labels + [y])[..p] == labels[..p];
  }

  lemma {:induction false} FirstSeenMembers(labels: seq<string>)
    ensures forall x :: x in FirstSeen(labels) <==> x in labels
  {
    if labels != [] {
      SplitLast(labels);
      FirstSeenMembers(labels[..|labels| - 1]);
    }
  }

  lemma {:induction false} FirstSeenOrder(labels: seq<string>, i: nat, j: nat)
    requires i < j < |FirstSeen(labels)|
    ensures SeenBefore(labels, FirstSeen(labels)[i], FirstSeen(labels)[j])
  {
    var init, last := labels[..|labels| - 1], labels[|labels| - 1];
    SplitLast(labels);
    var seen := FirstSeen(init);
    if j < |seen| {
      FirstSeenOrder(init, i, j);
      SeenStill(init, last, seen[i], seen[j]);
    } else {
      FirstSeenMembers(init);
      assert seen[i] in seen;
      SeenNow(init, seen[i], last);
    }
  }

  /** Some finding records the first label, no earlier one records the second, and if it records
      both, the first label is the smaller one. */
  ghost predicate MetBefore(all: seq<Finding>, side: Side, x: string, y: string) {
    exists n: nat :: n < |all| && Records(all[n], side, x) && (Records(all[n], side, y) ==> Leq(x, y))
                     && forall m :: 0 <= m < n ==> !Records(all[m], side, y)
  }

  lemma MetStill(all: seq<Finding>, f: Finding, side: Side, x: string, y: string)
    requires MetBefore(all, side, x, y)
    ensures MetBefore(all + [f], side, x, y)
  {
    var n: nat :| n < |all| && Records(all[n], side, x) && (Records(all[n], side, y) ==> Leq(x, y))
                  && forall m :: 0 <= m < n ==> !Records(all[m], side, y);
    assert (all + [f])[n] == all[n] && forall m :: 0 <= m < n ==> (all + [f])[m] == all[m];
  }

  lemma MetNow(all: seq<Finding>, f: Finding, side: Side, x: string, y: string)
    requires Records(f, side, x) && (Records(f, side, y) ==> Leq(x, y))
    requires forall g :: g in all ==> !Records(g, side, y)
    ensures MetBefore(all + [f], side, x, y)
  {
    var more := all + [f];
    assert more[|all|] == f;
    forall m | 0 <= m < |all| ensures !Records(more[m], side, y) { assert more[m] == all[m] && all[m] in all; }
  }

  lemma {:induction false} RunMembers(all: seq<Finding>, side: Side, x: string)
    ensures x in LabelRun(all, side) <==> exists g :: g in all && Records(g, side, x)
  {
    if all != [] {
      var init, f := all[..|all| - 1], all[|all| - 1];
      SplitLast(all);
      RunMembers(init, side, x);
      RecordsExact(f, side, x);
      assert x in SetKeys(Labels(side, f)) <==> x in SetOf(SetKeys(Labels(side, f)));
    }
  }

  /** A label met at a point of the block that a finding adds. */
  lemma BlockOrder(before: seq<string>, keys: seq<string>, p: nat, y: string)
    requires Increasing(keys) && |before| <= p < |before + keys| && y !in (before + keys)[..p] && y in keys
    ensures Leq((before + keys)[p], y)
  {
    var k := p - |before|;
    var j :| 0 <= j < |keys| && keys[j] == y;
    forall i | 0 <= i < k ensures keys[i] != y {
      assert (before + keys)[..p][|before| + i] == keys[i] && keys[i] in (before + keys)[..p];
    }
    LeqTotal(y, y);
    if j > k { assert LeqAt(keys, k, j); }
  }

  lemma {:induction false} RunOrder(all: seq<Finding>, side: Side, x: string, y: string)
    requires SeenBefore(LabelRun(all, side), x, y)
    ensures MetBefore(all, side, x, y)
    decreases |all|
  {
    var init, f := all[..|all| - 1], all[|all| - 1];
    SplitLast(all);
    var before, run := LabelRun(init, side), LabelRun(all, side);
    var p: nat :| p < |run| && run[p] == x && y !in run[..p];
    if p < |before| {
      assert run[..p] == before[..p] && run[p] == before[p];
      RunOrder(init, side, x, y);
      MetStill(init, f, side, x, y);
    } else {
      NewLabel(init, f, side, p, x, y);
    }
  }

  lemma NewLabel(init: seq<Finding>, f: Finding, side: Side, p: nat, x: string, y: string)
    requires Live(f)
    requires var run := LabelRun(init, side) + SetKeys(Labels(side, f));
             |LabelRun(init, side)| <= p < |run| && run[p] == x && y !in run[..p]
    ensures MetBefore(init + [f], side, x, y)
  {
    var before, keys := LabelRun(init, side), SetKeys(Labels(side, f));
    SetKeysSorted(Labels(side, f));
    RecordsExact(f, side, x);
    RecordsExact(f, side, y);
    assert x == keys[p - |before|];
    assert x in SetOf(keys);
    assert y in keys <==> y in SetOf(keys);
    if y in keys { BlockOrder(before, keys, p, y); }
    RunMembers(init, side, y);
    forall k | 0 <= k < |before| ensures before[k] != y {
      assert (before + keys)[..p][k] == before[k] && before[k] in (before + keys)[..p];
    }
    MetNow(init, f, side, x, y);
  }

  // ----- Links ---------------------------------------------------------------------------------------

  ghost predicate LinkBefore(all: seq<Finding>, a: Link, b: Link) {
    if a.capability != b.capability then MetBefore(all, Required, a.capability, b.capability)
    else
      var ids := SearchMeaning.Ids(all);
      SearchOrder.Earlier(ids, a.from, b.from) || (a.from == b.from && SearchOrder.Earlier(ids, a.to, b.to))
  }

  ghost predicate IdsInOrder(ids: seq<string>, list: seq<string>) {
    forall i, j :: 0 <= i < j < |list| ==> SearchOrder.Earlier(ids, list[i], list[j])
  }

  lemma CarriersInOrder(all: seq<Finding>, side: Side, cap: string)
    ensures IdsInOrder(SearchMeaning.Ids(all), Carriers(all, side, cap))
  {
    var positions := CarriersMean(all, side, cap);
    var list, ids := Carriers(all, side, cap), SearchMeaning.Ids(all);
    forall i, j | 0 <= i < j < |list| ensures SearchOrder.Earlier(ids, list[i], list[j]) {
      assert ids[positions[i]] == list[i] && ids[positions[j]] == list[j];
    }
  }

  ghost predicate AllBefore(ids: seq<string>, list: seq<string>, last: string) {
    forall a :: a in list ==> SearchOrder.Earlier(ids, a, last)
  }

  lemma IdsInit(ids: seq<string>, list: seq<string>)
    requires list != [] && IdsInOrder(ids, list)
    ensures IdsInOrder(ids, list[..|list| - 1]) && AllBefore(ids, list[..|list| - 1], list[|list| - 1])
  {
    var init := list[..|list| - 1];
    forall i, j | 0 <= i < j < |init| ensures SearchOrder.Earlier(ids, init[i], init[j]) {
      assert init[i] == list[i] && init[j] == list[j];
    }
    forall a | a in init ensures SearchOrder.Earlier(ids, a, list[|list| - 1]) {
      var i :| 0 <= i < |init| && init[i] == a;
      assert list[i] == a;
    }
  }

  ghost predicate Ordered(all: seq<Finding>, links: seq<Link>) {
    forall i, j :: 0 <= i < j < |links| ==> LinkBefore(all, links[i], links[j])
  }

  lemma OrderedConcat(all: seq<Finding>, a: seq<Link>, b: seq<Link>)
    requires Ordered(all, a) && Ordered(all, b) && forall x, y :: x in a && y in b ==> LinkBefore(all, x, y)
    ensures Ordered(all, a + b)
  {
    var whole := a + b;
    forall i, j | 0 <= i < j < |whole| ensures LinkBefore(all, whole[i], whole[j]) {
      if i < |a| <= j { assert whole[i] in a && whole[j] in b; }
    }
  }

  lemma {:induction false} RowMembers(from: string, needers: seq<string>, cap: string)
    ensures forall l :: l in Row(from, needers, cap) ==> l.from == from && l.to in needers && l.capability == cap
  {
    if needers != [] {
      SplitLast(needers);
      RowMembers(from, needers[..|needers| - 1], cap);
    }
  }

  lemma {:induction false} RowOrdered(all: seq<Finding>, from: string, needers: seq<string>, cap: string)
    requires IdsInOrder(SearchMeaning.Ids(all), needers)
    ensures Ordered(all, Row(from, needers, cap))
  {
    if needers != [] {
      var init, to := needers[..|needers| - 1], needers[|needers| - 1];
      IdsInit(SearchMeaning.Ids(all), needers);
      RowOrdered(all, from, init, cap);
      RowMembers(from, init, cap);
      OrderedConcat(all, Row(from, init, cap), if from == to then [] else [Link(from, to, cap)]);
    }
  }

  lemma {:induction false} GridMembers(granters: seq<string>, needers: seq<string>, cap: string)
    ensures forall l :: l in Grid(granters, needers, cap) ==> l.from in granters && l.capability == cap
  {
    if granters != [] {
      SplitLast(granters);
      GridMembers(granters[..|granters| - 1], needers, cap);
      RowMembers(granters[|granters| - 1], needers, cap);
    }
  }

  lemma {:induction false} GridOrdered(all: seq<Finding>, granters: seq<string>, needers: seq<string>, cap: string)
    requires IdsInOrder(SearchMeaning.Ids(all), granters) && IdsInOrder(SearchMeaning.Ids(all), needers)
    ensures Ordered(all, Grid(granters, needers, cap))
  {
    if granters != [] {
      var init, from := granters[..|granters| - 1], granters[|granters| - 1];
      IdsInit(SearchMeaning.Ids(all), granters);
      GridOrdered(all, init, needers, cap);
      GridMembers(init, needers, cap);
      RowMembers(from, needers, cap);
      RowOrdered(all, from, needers, cap);
      OrderedConcat(all, Grid(init, needers, cap), Row(from, needers, cap));
    }
  }

  lemma {:induction false} JoinedMembers(granted: seq<Entry>, required: seq<Entry>, k: nat)
    requires k <= |required|
    ensures forall l :: l in Joined(granted, required, k) ==> l.capability in Caps(required)[..k]
  {
    if k > 0 {
      JoinedMembers(granted, required, k - 1);
      var cap, caps := required[k - 1].cap, Caps(required);
      GridMembers(IdsOf(granted, cap), IdsOf(required, cap), cap);
      assert caps[..k] == caps[..k - 1] + [cap];
    }
  }

  /** The links of one label. */
  ghost function GridOf(granted: seq<Entry>, required: seq<Entry>, cap: string): seq<Link> {
    Grid(IdsOf(granted, cap), IdsOf(required, cap), cap)
  }

  lemma OneLabelOrdered(all: seq<Finding>, granted: seq<Entry>, required: seq<Entry>, cap: string)
    requires Indexes(granted, all, Granted) && Indexes(required, all, Required)
    ensures Ordered(all, GridOf(granted, required, cap))
    ensures forall l :: l in GridOf(granted, required, cap) ==> l.capability == cap
  {
    CarriersInOrder(all, Granted, cap);
    CarriersInOrder(all, Required, cap);
    GridOrdered(all, IdsOf(granted, cap), IdsOf(required, cap), cap);
    GridMembers(IdsOf(granted, cap), IdsOf(required, cap), cap);
  }

  lemma LabelsBefore(all: seq<Finding>, granted: seq<Entry>, required: seq<Entry>, k: nat, x: Link)
    requires Indexes(required, all, Required) && k < |required| && x in Joined(granted, required, k)
    ensures x.capability != required[k].cap && MetBefore(all, Required, x.capability, required[k].cap)
  {
    JoinedMembers(granted, required, k);
    var caps := Caps(required);
    var i :| 0 <= i < k && caps[i] == x.capability;
    EarlierLabel(all, required, i, k);
  }

  ghost predicate AllMetBefore(all: seq<Finding>, links: seq<Link>, cap: string) {
    forall x :: x in links ==> x.capability != cap && MetBefore(all, Required, x.capability, cap)
  }

  lemma LabelAppended(all: seq<Finding>, before: seq<Link>, grid: seq<Link>, cap: string)
    requires Ordered(all, before) && Ordered(all, grid) && AllMetBefore(all, before, cap)
    requires forall l :: l in grid ==> l.capability == cap
    ensures Ordered(all, before + grid)
  {
    forall x, y | x in before && y in grid ensures LinkBefore(all, x, y) {}
    OrderedConcat(all, before, grid);
  }

  lemma LabelsAllBefore(all: seq<Finding>, granted: seq<Entry>, required: seq<Entry>, k: nat)
    requires Indexes(required, all, Required) && k < |required|
    ensures AllMetBefore(all, Joined(granted, required, k), required[k].cap)
  {
    forall x | x in Joined(granted, required, k)
      ensures x.capability != required[k].cap && MetBefore(all, Required, x.capability, required[k].cap)
    {
      LabelsBefore(all, granted, required, k, x);
    }
  }

  lemma OneLabelMore(all: seq<Finding>, granted: seq<Entry>, required: seq<Entry>, k: nat)
    requires Indexes(granted, all, Granted) && Indexes(required, all, Required) && k < |required|
    requires Ordered(all, Joined(granted, required, k))
    ensures Ordered(all, Joined(granted, required, k) + GridOf(granted, required, required[k].cap))
  {
    var cap := required[k].cap;
    OneLabelOrdered(all, granted, required, cap);
    LabelsAllBefore(all, granted, required, k);
    LabelAppended(all, Joined(granted, required, k), GridOf(granted, required, cap), cap);
  }

  /** The numbers of labels whose links stand in order. */
  ghost function OrderedCounts(all: seq<Finding>, granted: seq<Entry>, required: seq<Entry>): iset<nat> {
    iset k: nat | k <= |required| && Ordered(all, Joined(granted, required, k))
  }

  lemma OneMoreCount(all: seq<Finding>, granted: seq<Entry>, required: seq<Entry>, k: nat)
    requires Indexes(granted, all, Granted) && Indexes(required, all, Required)
    requires k in OrderedCounts(all, granted, required) && k < |required|
    ensures k + 1 in OrderedCounts(all, granted, required)
  {
    OneLabelMore(all, granted, required, k);
    assert Joined(granted, required, k + 1) ==
           Joined(granted, required, k) + GridOf(granted, required, required[k].cap);
  }

  lemma {:induction false} Climb(counts: iset<nat>, n: nat)
    requires 0 in counts && forall k: nat :: k in counts && k < n ==> k + 1 in counts
    ensures n in counts
  {
    if n > 0 { Climb(counts, n - 1); }
  }

  lemma JoinedOrdered(all: seq<Finding>, granted: seq<Entry>, required: seq<Entry>)
    requires Indexes(granted, all, Granted) && Indexes(required, all, Required)
    ensures |required| in OrderedCounts(all, granted, required)
  {
    var counts := OrderedCounts(all, granted, required);
    assert Joined(granted, required, 0) == [];
    forall k: nat | k in counts && k < |required| ensures k + 1 in counts {
      OneMoreCount(all, granted, required, k);
    }
    Climb(counts, |required|);
  }

  lemma EarlierLabel(all: seq<Finding>, required: seq<Entry>, i: nat, j: nat)
    requires Indexes(required, all, Required) && i < j < |required|
    ensures required[i].cap != required[j].cap
    ensures MetBefore(all, Required, required[i].cap, required[j].cap)
  {
    var caps := Caps(required);
    FirstSeenOrder(LabelRun(all, Required), i, j);
    RunOrder(all, Required, caps[i], caps[j]);
  }

  /** The links stand in the order of their labels as the findings first require them, and for one label
      by the granting and then the requiring finding, both in load order. */
  lemma LinksInOrder(all: seq<Finding>, links: seq<Link>, i: nat, j: nat)
    requires IsJoin(all, links) && i < j < |links|
    ensures LinkBefore(all, links[i], links[j])
  {
    var granted, required :| Indexes(granted, all, Granted) && Indexes(required, all, Required)
      && links == Joined(granted, required, |required|);
    JoinedOrdered(all, granted, required);
  }
}
