/** Client code driving the network through small fixed runs:
    a three-node mesh, a removal from it, routing in a one-node and an empty
    network, repeated routing and repeated removal. */
module CanScenarios {
  import opened Options
  import opened Metric
  import opened Digest
  import opened Can

  lemma WithoutOfThree(a: Node, b: Node, c: Node)
    requires a != b && a != c && b != c
    ensures Without([a, b, c], a) == [b, c]
    ensures Without([a, b, c], b) == [a, c]
    ensures Without([a, b, c], c) == [a, b]
    ensures Without([a, c], a) == [c] && Without([a, c], c) == [a]
  {
    assert [a, b, c] == [] + [a] + [b, c] == [a] + [b] + [c] == [a, b] + [c] + [];
    assert [a, c] == [] + [a] + [c] == [a] + [c] + [];
    WithoutSplit([], a, [b, c]);
    WithoutSplit([a], b, [c]);
    WithoutSplit([a, b], c, []);
    WithoutSplit([], a, [c]);
    WithoutSplit([a], c, []);
  }

  /** Nodes A, B, C added in that order: each neighbours the other two, in insertion order. */
  method ThreeNodeMesh(digest: string -> Sha1Digest) returns (net: Network, a: Node, b: Node, c: Node)
    ensures net.nodes == [a, b, c] && net.FullMesh()
    ensures a.neighbours == [b, c] && b.neighbours == [a, c] && c.neighbours == [a, b]
    ensures a.id == 0 && b.id == 1 && c.id == 2
    ensures fresh(net) && fresh(a) && fresh(b) && fresh(c)
  {
    net := new Network(digest);
    a := new Node(0);
    a.position := Point(0, 0);
    b := new Node(1);
    b.position := Point(2, 2);
    c := new Node(2);
    c.position := Point(1, 1);
    net.AddNode(a);
    net.AddNode(b);
    net.AddNode(c);
    assert net.nodes == [a, b, c];
    WithoutOfThree(a, b, c);
    assert a in net.nodes && b in net.nodes && c in net.nodes;
  }

  /** Removing B from that mesh leaves A and C neighbouring only each other. */
  method RemoveMiddle(digest: string -> Sha1Digest) returns (net: Network, a: Node, c: Node)
    ensures net.nodes == [a, c] && net.FullMesh()
    ensures a.neighbours == [c] && c.neighbours == [a]
  {
    var b;
    net, a, b, c := ThreeNodeMesh(digest);
    net.RemoveNode(b.id);
    WithoutOfThree(a, b, c);
  }

  /** A one-node network routes every key to its only node. */
  method SingleNodeRouting(digest: string -> Sha1Digest, p: Point, key: string) returns (only: Node, routed: Option<Node>)
    ensures routed == Some(only) && only.position == p
  {
    var net := new Network(digest);
    only := new Node(7);
    only.position := p;
    net.AddNode(only);
    routed := net.GetClosestNode(key);
  }

  /** An empty network routes no key. */
  method EmptyRouting(digest: string -> Sha1Digest, key: string) returns (routed: Option<Node>)
    ensures routed == None
  {
    var net := new Network(digest);
    routed := net.GetClosestNode(key);
  }

  /** Routing the same key twice on an unchanged network picks the same node. */
  method RoutingIsDeterministic(net: Network, key: string) returns (first: Option<Node>, second: Option<Node>)
    ensures first == second
  {
    first := net.GetClosestNode(key);
    second := net.GetClosestNode(key);
    if first.Some? {
      var ps, t := PositionsOf(net.nodes), Target(net.Hash(key));
      var i :| 0 <= i < |net.nodes| && first.value == net.nodes[i] && FirstNearest(ps, t, i);
      var k :| 0 <= k < |net.nodes| && second.value == net.nodes[k] && FirstNearest(ps, t, k);
      FirstNearestUnique(ps, t, i, k);
    }
  }

  /** Removing an id twice leaves the state the first removal produced. */
  method RemoveTwice(net: Network, k: int)
    modifies net`nodes, net.nodes`neighbours
    ensures net.nodes == WithoutId(old(net.nodes), k)
    ensures forall n :: n in net.nodes ==> n.neighbours == WithoutId(old(n.neighbours), k)
    ensures forall n :: n in old(net.nodes) && n !in net.nodes ==> n.neighbours == old(n.neighbours)
  {
    net.RemoveNode(k);
    label once:
    assert forall i :: 0 <= i < |net.nodes| ==> net.nodes[i] in old(net.nodes);
    net.RemoveNode(k);
    WithoutIdIdempotent(old(net.nodes), k);
    assert net.nodes == old@once(net.nodes);
    forall n | n in net.nodes ensures n.neighbours == old@once(n.neighbours) {
      WithoutIdIdempotent(old(n.neighbours), k);
    }
  }
}
