/** Which proposals are listed, and where, said of the finding records alone. */
module ProposalMeaning {
  import opened Ordering
  import opened Findings
  import opened ChainSearch
  import opened ChainTheorems
  import opened ProposalOrder
  import CapabilityLinks
  import LinkAgreement
  import ReportMeaning
  import SearchMeaning
  import SearchOrder

  // ----- The frames that are proposed -------------------------------------------------------------

  /** A frame of an admitted length among the first `n` has the key. */
  ghost predicate KeyAmong(frames: seq<Frame>, minLength: int, n: nat, key: string)
    requires n <= |frames|
  {
    exists k :: 0 <= k < n && |frames[k].path| >= minLength && MemberKey(frames[k].path) == key
  }

  ghost predicate NewAt(frames: seq<Frame>, minLength: int, b: nat)
    requires b < |frames|
  {
    |frames[b].path| >= minLength && !KeyAmong(frames, minLength, b, MemberKey(frames[b].path))
  }

  /** The proposals are those of the frames at the positions, which are new there. */
  ghost predicate Locates(nodes: seq<Node>, minLength: int, frames: seq<Frame>, r: seq<Proposal>, at: seq<nat>) {
    && |at| == |r|
    && (forall i, j :: 0 <= i < j < |at| ==> at[i] < at[j])
    && forall i :: 0 <= i < |at| ==>
         at[i] < |frames| && r[i] == ProposalOf(nodes, frames[at[i]]) && NewAt(frames, minLength, at[i])
  }

  /** Every new frame from `n` on is proposed, unless all the room was used before it. */
  ghost predicate Covers(minLength: int, frames: seq<Frame>, n: nat, room: nat, at: seq<nat>) {
    forall b: nat :: n <= b < |frames| && NewAt(frames, minLength, b) ==>
      b in at || (|at| == room && forall i :: 0 <= i < |at| ==> at[i] < b)
  }

  lemma KeyAmongNext(frames: seq<Frame>, minLength: int, n: nat, key: string)
    requires n < |frames|
    ensures KeyAmong(frames, minLength, n + 1, key) <==>
            KeyAmong(frames, minLength, n, key)
            || (|frames[n].path| >= minLength && MemberKey(frames[n].path) == key)
  {
  }

  ghost predicate SeenSoFar(frames: seq<Frame>, minLength: int, n: nat, seen: set<string>)
    requires n <= |frames|
  {
    forall key :: key in seen <==> KeyAmong(frames, minLength, n, key)
  }

  lemma SeenNext(frames: seq<Frame>, minLength: int, n: nat, seen: set<string>)
    requires n < |frames| && SeenSoFar(frames, minLength, n, seen)
    ensures var key := MemberKey(frames[n].path);
            if |frames[n].path| >= minLength && key !in seen
            then NewAt(frames, minLength, n) && SeenSoFar(frames, minLength, n + 1, seen + {key})
            else !NewAt(frames, minLength, n) && SeenSoFar(frames, minLength, n + 1, seen)
  {
    forall k { KeyAmongNext(frames, minLength, n, k); }
  }

  lemma {:induction false} Located(nodes: seq<Node>, minLength: int, room: nat, frames: seq<Frame>, n: nat,
                                   seen: set<string>) returns (at: seq<nat>)
    requires n <= |frames| && SeenSoFar(frames, minLength, n, seen)
    ensures Locates(nodes, minLength, frames, Propose(nodes, minLength, room, frames[n..], seen), at)
    ensures (forall i :: 0 <= i < |at| ==> n <= at[i]) && Covers(minLength, frames, n, room, at)
    decreases |frames| - n
  {
    at := [];
    if n < |frames| && room > 0 {
      var key := MemberKey(frames[n].path);
      assert frames[n..][0] == frames[n] && frames[n..][1..] == frames[n + 1..];
      SeenNext(frames, minLength, n, seen);
      if |frames[n].path| >= minLength && key !in seen {
        var rest := Located(nodes, minLength, room - 1, frames, n + 1, seen + {key});
        at := [n] + rest;
        FrontLocated(nodes, minLength, frames, n, Propose(nodes, minLength, room - 1, frames[n + 1..], seen + {key}),
                     rest);
        FrontCovers(minLength, frames, n, room - 1, rest);
      } else {
        at := Located(nodes, minLength, room, frames, n + 1, seen);
      }
    }
  }

  lemma FrontLocated(nodes: seq<Node>, minLength: int, frames: seq<Frame>, n: nat, r: seq<Proposal>, at: seq<nat>)
    requires n < |frames| && NewAt(frames, minLength, n) && Locates(nodes, minLength, frames, r, at)
    requires forall i :: 0 <= i < |at| ==> n + 1 <= at[i]
    ensures Locates(nodes, minLength, frames, [ProposalOf(nodes, frames[n])] + r, [n] + at)
  {
  }

  lemma FrontCovers(minLength: int, frames: seq<Frame>, n: nat, room: nat, at: seq<nat>)
    requires n < |frames| && Covers(minLength, frames, n + 1, room, at)
    ensures Covers(minLength, frames, n, room + 1, [n] + at)
  {
    var more := [n] + at;
    forall b: nat | n <= b < |frames| && NewAt(frames, minLength, b)
      ensures b in more || (|more| == room + 1 && forall i :: 0 <= i < |more| ==> more[i] < b)
    {
      if b == n {
        assert more[0] == n;
      } else if b in at {
        assert b in more;
      } else {
        forall i | 0 <= i < |more| ensures more[i] < b {
          assert i > 0 ==> more[i] == at[i - 1];
        }
      }
    }
  }

  // ----- The order of the proposals -----------------------------------------------------------------

  lemma NewIsFirst(frames: seq<Frame>, minLength: int, b: nat)
    requires b < |frames| && NewAt(frames, minLength, b)
    ensures frames[b] !in frames[..b]
  {
    forall k | 0 <= k < b ensures frames[..b][k] != frames[b] {
      assert frames[..b][k] == frames[k];
    }
  }

  ghost function Frames(nodes: seq<Node>): seq<Frame> {
    Order(nodes, Starts(nodes, 0))
  }

  lemma ProposalsLocated(nodes: seq<Node>, minLength: int) returns (at: seq<nat>)
    ensures Locates(nodes, minLength, Frames(nodes), Proposals(nodes, minLength), at)
    ensures Covers(minLength, Frames(nodes), 0, MAX_PROPOSALS, at)
  {
    var frames := Frames(nodes);
    assert frames[0..] == frames;
    at := Located(nodes, minLength, MAX_PROPOSALS, frames, 0, {});
  }

  lemma ProposalsOrdered(nodes: seq<Node>, minLength: int, i: nat, j: nat)
    requires UniqueIds(nodes) && i < j < |Proposals(nodes, minLength)|
    ensures VisitedBefore(nodes, Proposals(nodes, minLength)[i].members, Proposals(nodes, minLength)[j].members)
  {
    var frames := Frames(nodes);
    var at := ProposalsLocated(nodes, minLength);
    SearchInOrder(nodes);
    NewIsFirst(frames, minLength, at[j]);
  }

  lemma {:induction false} FirstIndex(frames: seq<Frame>, f: Frame) returns (b: nat)
    requires f in frames
    ensures b < |frames| && frames[b] == f && f !in frames[..b]
  {
    var k :| 0 <= k < |frames| && frames[k] == f;
    if f in frames[..k] {
      b := FirstIndex(frames[..k], f);
      assert frames[..k][..b] == frames[..b];
    } else {
      b := k;
    }
  }

  lemma {:induction false} FirstKey(frames: seq<Frame>, minLength: int, b: nat) returns (k: nat)
    requires b < |frames| && |frames[b].path| >= minLength
    ensures k <= b && MemberKey(frames[k].path) == MemberKey(frames[b].path) && NewAt(frames, minLength, k)
    decreases b
  {
    k := b;
    if KeyAmong(frames, minLength, b, MemberKey(frames[b].path)) {
      var c :| 0 <= c < b && |frames[c].path| >= minLength && MemberKey(frames[c].path) == MemberKey(frames[b].path);
      k := FirstKey(frames, minLength, c);
    }
  }

  ghost predicate NotAfter(nodes: seq<Node>, p: seq<string>, q: seq<string>) {
    p == q || VisitedBefore(nodes, p, q)
  }

  lemma FramePlaced(nodes: seq<Node>, minLength: int, at: seq<nat>, b: nat)
    requires UniqueIds(nodes) && b < |Frames(nodes)| && Frames(nodes)[b] !in Frames(nodes)[..b]
    requires |Frames(nodes)[b].path| >= minLength
    requires Locates(nodes, minLength, Frames(nodes), Proposals(nodes, minLength), at)
    requires Covers(minLength, Frames(nodes), 0, MAX_PROPOSALS, at)
    ensures Placed(nodes, Proposals(nodes, minLength), Frames(nodes)[b].path)
  {
    var frames, r := Frames(nodes), Proposals(nodes, minLength);
    SearchInOrder(nodes);
    var k := FirstKey(frames, minLength, b);
    if k in at {
      var i :| 0 <= i < |at| && at[i] == k;
      assert r[i].members == frames[k].path;
      assert k < b ==> VisitedBefore(nodes, frames[k].path, frames[b].path);
    } else {
      forall i | 0 <= i < |r| ensures VisitedBefore(nodes, r[i].members, frames[b].path) {
        assert at[i] < k && r[i].members == frames[at[i]].path;
      }
    }
  }

  /** Its members are listed, in an arrangement visited no later; or the list is full of chains visited
      before it. */
  ghost predicate Placed(nodes: seq<Node>, r: seq<Proposal>, p: seq<string>) {
    || (exists i :: 0 <= i < |r| && MemberKey(r[i].members) == MemberKey(p) && NotAfter(nodes, r[i].members, p))
    || (|r| == MAX_PROPOSALS && forall i :: 0 <= i < |r| ==> VisitedBefore(nodes, r[i].members, p))
  }

  lemma ChainPlaced(nodes: seq<Node>, minLength: int, p: seq<string>)
    requires UniqueIds(nodes) && ChainPath(nodes, p) && minLength <= |p| <= MAX_LENGTH
    ensures Placed(nodes, Proposals(nodes, minLength), p)
  {
    var at := ProposalsLocated(nodes, minLength);
    OrderExact(nodes);
    var f := FrameOf(nodes, p);
    assert f in Frames(nodes);
    var b := FirstIndex(Frames(nodes), f);
    FramePlaced(nodes, minLength, at, b);
  }

  // ----- In terms of the records ----------------------------------------------------------------------

  /** Some open member records that it grants the label, and the next finding that it requires it. */
  ghost predicate SharesIn(all: seq<Finding>, p: seq<string>, next: string, cap: string) {
    && (exists j :: 0 <= j < |p| && ReportMeaning.Recorded(all, p[j], CapabilityLinks.Granted, cap))
    && ReportMeaning.Recorded(all, next, CapabilityLinks.Required, cap)
  }

  /** Behind the same members, `a` shares a label that is above every label `b` shares; or both share the
      same greatest label, and `a` was loaded later. */
  ghost predicate LeadsIn(all: seq<Finding>, p: seq<string>, a: string, b: string) {
    exists cap :: SharesIn(all, p, a, cap)
      && forall d :: SharesIn(all, p, b, d) ==>
           Leq(d, cap) && (d == cap ==> SearchOrder.Earlier(SearchMeaning.Ids(all), b, a))
  }

  ghost predicate PartsIn(all: seq<Finding>, p: seq<string>, q: seq<string>, k: nat) {
    && k < |p| && k < |q| && p[..k] == q[..k]
    && if k == 0 then SearchOrder.Earlier(SearchMeaning.Ids(all), p[k], q[k]) else LeadsIn(all, p[..k], p[k], q[k])
  }

  /** A chain is visited before those that continue it; otherwise the members where two chains part
      decide. */
  ghost predicate Precedes(all: seq<Finding>, p: seq<string>, q: seq<string>) {
    p < q || exists k: nat :: PartsIn(all, p, q, k)
  }

  lemma {:induction false} NoNode(nodes: seq<Node>, id: string)
    requires !HasNode(nodes, id)
    ensures NodeAt(nodes, id) == Node("", {}, {})
  {
    if nodes != [] {
      assert nodes[0] in nodes;
      assert forall n :: n in nodes[1..] ==> n in nodes;
      NoNode(nodes[1..], id);
    }
  }

  lemma LabelsRecorded(all: seq<Finding>, id: string, cap: string)
    requires WellKeyed(all)
    ensures cap in NodeAt(NodesOf(all), id).grant <==> ReportMeaning.Recorded(all, id, CapabilityLinks.Granted, cap)
    ensures cap in NodeAt(NodesOf(all), id).need <==> ReportMeaning.Recorded(all, id, CapabilityLinks.Required, cap)
  {
    LinkAgreement.NodeCarries(all, id, cap);
    ReportMeaning.CarriesMeans(all, CapabilityLinks.Granted, id, cap);
    ReportMeaning.CarriesMeans(all, CapabilityLinks.Required, id, cap);
    if !HasNode(NodesOf(all), id) { NoNode(NodesOf(all), id); }
  }

  lemma SharesMeans(all: seq<Finding>, p: seq<string>, next: string, cap: string)
    requires WellKeyed(all)
    ensures Shares(NodesOf(all), p, next, cap) <==> SharesIn(all, p, next, cap)
  {
    GrantsMembers(NodesOf(all), p, cap);
    LabelsRecorded(all, next, cap);
    forall j | 0 <= j < |p|
      ensures cap in NodeAt(NodesOf(all), p[j]).grant <==>
              ReportMeaning.Recorded(all, p[j], CapabilityLinks.Granted, cap)
    {
      LabelsRecorded(all, p[j], cap);
    }
  }

  lemma {:induction false} NodesInLoadOrder(all: seq<Finding>, a: string, b: string)
    requires Earlier(NodesOf(all), a, b)
    ensures SearchOrder.Earlier(SearchMeaning.Ids(all), a, b)
    decreases |all|
  {
    var ids, nodes, rest := SearchMeaning.Ids(all), NodesOf(all), NodesOf(all[1..]);
    assert ids[1..] == SearchMeaning.Ids(all[1..]);
    var i, j :| 0 <= i < j < |nodes| && nodes[i].id == a && nodes[j].id == b;
    if Live(all[0]) && i == 0 {
      assert nodes[j] == rest[j - 1];
      var k := NodePosition(all[1..], j - 1);
      assert ids[0] == a && ids[k + 1] == b;
    } else {
      var first := if Live(all[0]) then 1 else 0;
      assert nodes[i] == rest[i - first] && nodes[j] == rest[j - first];
      assert IdsOf(rest)[i - first] == a && IdsOf(rest)[j - first] == b;
      NodesInLoadOrder(all[1..], a, b);
      SearchOrder.EarlierTail(ids, a, b);
    }
  }

  lemma {:induction false} NodePosition(all: seq<Finding>, j: nat) returns (k: nat)
    requires j < |NodesOf(all)|
    ensures k < |all| && all[k].id == NodesOf(all)[j].id
    decreases |all|
  {
    if Live(all[0]) && j == 0 {
      k := 0;
    } else {
      k := NodePosition(all[1..], if Live(all[0]) then j - 1 else j);
      k := k + 1;
    }
  }

  lemma LeadsMeans(all: seq<Finding>, p: seq<string>, a: string, b: string)
    requires WellKeyed(all) && Leads(NodesOf(all), p, a, b)
    ensures LeadsIn(all, p, a, b)
  {
    var nodes := NodesOf(all);
    var cap :| Shares(nodes, p, a, cap)
      && forall d :: Shares(nodes, p, b, d) ==> Leq(d, cap) && (d == cap ==> Earlier(nodes, b, a));
    SharesMeans(all, p, a, cap);
    forall d | SharesIn(all, p, b, d)
      ensures Leq(d, cap) && (d == cap ==> SearchOrder.Earlier(SearchMeaning.Ids(all), b, a))
    {
      SharesMeans(all, p, b, d);
      if d == cap { NodesInLoadOrder(all, b, a); }
    }
  }

  lemma PrecedesMeans(all: seq<Finding>, p: seq<string>, q: seq<string>)
    requires WellKeyed(all) && VisitedBefore(NodesOf(all), p, q)
    ensures Precedes(all, p, q)
  {
    if !(p < q) {
      var k: nat :| PartsAt(NodesOf(all), p, q, k);
      if k == 0 {
        NodesInLoadOrder(all, p[k], q[k]);
      } else {
        LeadsMeans(all, p[..k], p[k], q[k]);
      }
      assert PartsIn(all, p, q, k);
    }
  }

  /** The proposals stand in the order in which their chains are visited. */
  lemma ProposalsInOrder(all: seq<Finding>, minLength: int, i: nat, j: nat)
    requires WellKeyed(all) && i < j < |Proposals(NodesOf(all), minLength)|
    ensures Precedes(all, Proposals(NodesOf(all), minLength)[i].members, Proposals(NodesOf(all), minLength)[j].members)
  {
    NodesExact(all);
    ProposalsOrdered(NodesOf(all), minLength, i, j);
    PrecedesMeans(all, Proposals(NodesOf(all), minLength)[i].members, Proposals(NodesOf(all), minLength)[j].members);
  }

  /** Every chain of an admitted length has its members proposed, and of all their arrangements the one
      visited first; unless five hundred chains visited before it fill the list. */
  lemma ChainListed(all: seq<Finding>, minLength: int, fs: seq<Finding>)
    requires WellKeyed(all) && SearchMeaning.Chain(all, fs) && minLength <= |fs| <= 5
    ensures var r, p := Proposals(NodesOf(all), minLength), SearchMeaning.Ids(fs);
            || (exists i :: 0 <= i < |r| && SetOf(r[i].members) == SetOf(p)
                            && (r[i].members == p || Precedes(all, r[i].members, p)))
            || (|r| == 500 && forall i :: 0 <= i < |r| ==> Precedes(all, r[i].members, p))
  {
    var nodes, r, p := NodesOf(all), Proposals(NodesOf(all), minLength), SearchMeaning.Ids(fs);
    NodesExact(all);
    forall i | 0 <= i < |fs| ensures Live(fs[i]) { SearchMeaning.OpenExact(fs[i]); }
    SearchMeaning.ChainExact(all, fs);
    ChainPlaced(nodes, minLength, p);
    if i :| 0 <= i < |r| && MemberKey(r[i].members) == MemberKey(p) && NotAfter(nodes, r[i].members, p) {
      SameKeySameMembers(all, minLength, i, p);
      if r[i].members != p { PrecedesMeans(all, r[i].members, p); }
    } else {
      forall i | 0 <= i < |r| ensures Precedes(all, r[i].members, p) { PrecedesMeans(all, r[i].members, p); }
    }
  }

  lemma SameKeySameMembers(all: seq<Finding>, minLength: int, i: nat, p: seq<string>)
    requires WellKeyed(all) && ChainPath(NodesOf(all), p) && i < |Proposals(NodesOf(all), minLength)|
    requires MemberKey(Proposals(NodesOf(all), minLength)[i].members) == MemberKey(p)
    ensures SetOf(Proposals(NodesOf(all), minLength)[i].members) == SetOf(p)
  {
    var q := Proposals(NodesOf(all), minLength)[i];
    ProposalsSound(all, minLength);
    assert q in Proposals(NodesOf(all), minLength);
    ChainKeyIds(all, p);
    ChainKeyIds(all, q.members);
    MemberKeyExact(q.members, p);
    SameMembers(q.members, p);
  }
}
