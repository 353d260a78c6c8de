/** The proposal search and the link join see the same edges. */
module LinkAgreement {
  import opened Ordering
  import opened Findings
  import opened ChainSearch
  import opened ChainTheorems
  import opened CapabilityLinks

  /** What a node table lookup says about the findings. */
  lemma NodeCarries(all: seq<Finding>, id: string, cap: string)
    requires WellKeyed(all)
    ensures Carries(all, Granted, id, cap) <==> HasNode(NodesOf(all), id) && cap in NodeAt(NodesOf(all), id).grant
    ensures Carries(all, Required, id, cap) <==> HasNode(NodesOf(all), id) && cap in NodeAt(NodesOf(all), id).need
  {
    var nodes := NodesOf(all);
    NodesExact(all);
    if HasNode(nodes, id) {
      var n :| n in nodes && n.id == id;
      NodeAtMember(nodes, n);
      var f :| f in all && Live(f) && n == Node(f.id, Grants(f), Needs(f));
      forall g | g in all && g.id == id ensures g == f { SameFinding(all, f, g); }
    } else {
      forall f | f in all && Live(f) ensures f.id != id {
        assert Node(f.id, Grants(f), Needs(f)) in nodes;
      }
    }
  }

  lemma SameFinding(all: seq<Finding>, f: Finding, g: Finding)
    requires WellKeyed(all) && f in all && g in all && f.id == g.id
    ensures f == g
  {
    var i :| 0 <= i < |all| && all[i] == f;
    var j :| 0 <= j < |all| && all[j] == g;
  }

  ghost predicate Linked(all: seq<Finding>, a: string, b: string) {
    exists cap :: LinkHolds(all, Link(a, b, cap))
  }

  /** A two-member chain is a link. */
  lemma PairChain(all: seq<Finding>, a: string, b: string)
    requires WellKeyed(all)
    ensures ChainPath(NodesOf(all), [a, b]) <==> Linked(all, a, b)
  {
    var nodes := NodesOf(all);
    var p := [a, b];
    assert ChainPath(nodes, p) <==> a != b && HasNode(nodes, a) && HasNode(nodes, b) && Feeds(nodes, a, b) by {
      assert p[0] == a && p[1] == b;
      assert Reached(nodes, p, 1) <==> Feeds(nodes, p[0], p[1]);
    }
    if ChainPath(nodes, p) {
      var cap :| cap in NodeAt(nodes, a).grant * NodeAt(nodes, b).need;
      NodeCarries(all, a, cap);
      NodeCarries(all, b, cap);
      assert LinkHolds(all, Link(a, b, cap));
    }
    if Linked(all, a, b) {
      var cap :| LinkHolds(all, Link(a, b, cap));
      NodeCarries(all, a, cap);
      NodeCarries(all, b, cap);
      assert cap in NodeAt(nodes, a).grant * NodeAt(nodes, b).need;
    }
  }

  lemma PairPath(p: seq<string>, a: string, b: string)
    requires Distinct(p) && a != b && SetOf(p) == {a, b}
    ensures p == [a, b] || p == [b, a]
  {
    DistinctMultiset(p);
    assert |p| == 2;
    assert p[0] in SetOf(p) && p[1] in SetOf(p);
  }

  ghost predicate Endpoints(links: seq<Link>, a: string, b: string) {
    exists l :: l in links && ((l.from == a && l.to == b) || (l.from == b && l.to == a))
  }

  lemma EndpointsLinked(all: seq<Finding>, links: seq<Link>, a: string, b: string)
    requires LinksExact(all, links) && a != b
    ensures Endpoints(links, a, b) <==> Linked(all, a, b) || Linked(all, b, a)
  {
    if Endpoints(links, a, b) {
      var l :| l in links && ((l.from == a && l.to == b) || (l.from == b && l.to == a));
      assert LinkHolds(all, Link(l.from, l.to, l.capability));
    }
    if Linked(all, a, b) {
      var cap :| LinkHolds(all, Link(a, b, cap));
      assert Link(a, b, cap) in links;
    }
    if Linked(all, b, a) {
      var cap :| LinkHolds(all, Link(b, a, cap));
      assert Link(b, a, cap) in links;
    }
  }

  lemma PairProposed(all: seq<Finding>, minLength: int, a: string, b: string)
    requires WellKeyed(all) && minLength <= 2 && a != b
    requires |Proposals(NodesOf(all), minLength)| < MAX_PROPOSALS
    requires ChainPath(NodesOf(all), [a, b])
    ensures HasMembers(Proposals(NodesOf(all), minLength), {a, b})
    ensures HasMembers(Proposals(NodesOf(all), minLength), {b, a})
  {
    var p := [a, b];
    assert SetOf(p) == {a, b} == {b, a} by { assert p[0] == a && p[1] == b; }
    ProposalsComplete(all, minLength, p);
  }

  lemma PairIsChain(all: seq<Finding>, minLength: int, a: string, b: string)
    requires WellKeyed(all) && a != b
    requires HasMembers(Proposals(NodesOf(all), minLength), {a, b})
    ensures ChainPath(NodesOf(all), [a, b]) || ChainPath(NodesOf(all), [b, a])
  {
    var r := Proposals(NodesOf(all), minLength);
    var i :| 0 <= i < |r| && SetOf(r[i].members) == {a, b};
    ProposalsSound(all, minLength);
    assert r[i] in r;
    PairPath(r[i].members, a, b);
  }

  /** Below the cap, the two-member proposals are exactly the unordered endpoints of the
      links. */
  lemma PairsAreLinks(all: seq<Finding>, links: seq<Link>, minLength: int, a: string, b: string)
    requires WellKeyed(all) && LinksExact(all, links)
    requires minLength <= 2 && |Proposals(NodesOf(all), minLength)| < MAX_PROPOSALS
    requires a != b
    ensures HasMembers(Proposals(NodesOf(all), minLength), {a, b}) <==> Endpoints(links, a, b)
  {
    PairChain(all, a, b);
    PairChain(all, b, a);
    EndpointsLinked(all, links, a, b);
    if HasMembers(Proposals(NodesOf(all), minLength), {a, b}) {
      PairIsChain(all, minLength, a, b);
    }
    if Linked(all, a, b) {
      PairProposed(all, minLength, a, b);
    } else if Linked(all, b, a) {
      PairProposed(all, minLength, b, a);
    }
  }
}
