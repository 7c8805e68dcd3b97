/** The network state of the content-addressable network: member nodes, the
    full-mesh neighbour lists derived from membership, the key hash and the
    nearest-node routing query (main.py). */
module Can {
  import opened Options
  import opened Metric
  import opened Digest
  import Seqs

  /** A member of the network (`CANNode`). Its `id` is never reassigned; its
      position is set by callers; its neighbour list is maintained by the network. */
  class Node {
    const id: int
    var position: Point
    var neighbours: seq<Node>

    constructor (id: int)
      ensures this.id == id && position == Origin && neighbours == []
    {
      this.id := id;
      position := Origin;
      neighbours := [];
    }
  }

  /** The entries of `s` that are not the object `n` (comparison by identity). */
  function Without(s: seq<Node>, n: Node): (r: seq<Node>)
    ensures n !in r
    ensures forall m :: m in s && m != n ==> m in r
    ensures forall m :: m in r ==> m in s
  {
    Seqs.Filter(s, (m: Node) => m != n)
  }

  /** The entries of `s` whose id is not `k` (comparison by id). */
  function WithoutId(s: seq<Node>, k: int): (r: seq<Node>)
    ensures forall m :: m in r ==> m in s && m.id != k
    ensures forall m :: m in s && m.id != k ==> m in r
  {
    Seqs.Filter(s, (m: Node) => m.id != k)
  }

  /** Removing by id a second time removes nothing more. */
  lemma WithoutIdIdempotent(s: seq<Node>, k: int)
    ensures WithoutId(WithoutId(s, k), k) == WithoutId(s, k)
  {
    Seqs.FilterIdempotent(s, (m: Node) => m.id != k);
  }

  /** Removing an id no entry carries leaves the sequence as it was. */
  lemma WithoutAbsentId(s: seq<Node>, k: int)
    requires forall m :: m in s ==> m.id != k
    ensures WithoutId(s, k) == s
  {
    Seqs.FilterKeepsAll(s, (m: Node) => m.id != k);
  }

  /** Dropping an id and dropping an object can be done in either order. */
  lemma WithoutCommutes(s: seq<Node>, n: Node, k: int)
    ensures WithoutId(Without(s, n), k) == Without(WithoutId(s, k), n)
  {
    Seqs.FilterCommute(s, (m: Node) => m != n, (m: Node) => m.id != k);
  }

  /** Building `Without` one entry at a time, as a loop over `s` does. */
  lemma WithoutPrefix(s: seq<Node>, j: nat, n: Node)
    requires j < |s|
    ensures Without(s[..j + 1], n) == Without(s[..j], n) + (if s[j] != n then [s[j]] else [])
  {
    assert s[..j + 1] == s[..j] + [s[j]];
    Seqs.FilterAppend(s[..j], s[j], (m: Node) => m != n);
  }

  /** Dropping a node that occurs exactly once joins what stood before and after it. */
  lemma WithoutSplit(p: seq<Node>, n: Node, q: seq<Node>)
    requires n !in p && n !in q
    ensures Without(p + [n] + q, n) == p + q
  {
    calc {
      Without(p + [n] + q, n);
      == { Seqs.FilterConcat(p + [n], q, (m: Node) => m != n); }
      Without(p + [n], n) + Without(q, n);
      == { Seqs.FilterAppend(p, n, (m: Node) => m != n); }
      Without(p, n) + Without(q, n);
      == { Seqs.FilterKeepsAll(p, (m: Node) => m != n); Seqs.FilterKeepsAll(q, (m: Node) => m != n); }
      p + q;
    }
  }

  /** The positions of the entries of `s`, in order. */
  function PositionsOf(s: seq<Node>): (ps: seq<Point>)
    reads s
    ensures |ps| == |s| && forall j :: 0 <= j < |s| ==> ps[j] == s[j].position
  {
    if s == [] then [] else [s[0].position] + PositionsOf(s[1..])
  }

  /** No two entries of `s` share an id (not enforced by the network). */
  predicate UniqueIds(s: seq<Node>)
  {
    forall i, j :: 0 <= i < j < |s| ==> s[i].id != s[j].id
  }

  /** Appending a node keeps ids unique exactly when its id is new. */
  lemma AppendUniqueIds(s: seq<Node>, n: Node)
    ensures UniqueIds(s + [n]) <==> UniqueIds(s) && forall m :: m in s ==> m.id != n.id
  {
    var t := s + [n];
    if UniqueIds(t) {
      forall m | m in s ensures m.id != n.id {
        var i :| 0 <= i < |s| && s[i] == m;
        assert t[i] == m && t[|s|] == n;
      }
      forall i, j | 0 <= i < j < |s| ensures s[i].id != s[j].id {
        assert t[i] == s[i] && t[j] == s[j];
      }
    }
  }

  lemma PrependUniqueIds(n: Node, s: seq<Node>)
    ensures UniqueIds([n] + s) <==> UniqueIds(s) && forall m :: m in s ==> m.id != n.id
  {
    var t := [n] + s;
    if UniqueIds(t) {
      forall m | m in s ensures m.id != n.id {
        var i :| 0 <= i < |s| && s[i] == m;
        assert t[i + 1] == m && t[0] == n;
      }
      forall i, j | 0 <= i < j < |s| ensures s[i].id != s[j].id {
        assert t[i + 1] == s[i] && t[j + 1] == s[j];
      }
    }
    if UniqueIds(s) && forall m :: m in s ==> m.id != n.id {
      forall i, j | 0 <= i < j < |t| ensures t[i].id != t[j].id {
        if i > 0 {
          assert t[i] == s[i - 1] && t[j] == s[j - 1];
        } else {
          assert t[j] == s[j - 1] && t[j] in s;
        }
      }
    }
  }

  /** Removing by id never creates a duplicate id. */
  lemma {:induction false} WithoutIdKeepsUniqueIds(s: seq<Node>, k: int)
    requires UniqueIds(s)
    ensures UniqueIds(WithoutId(s, k))
  {
    if s != [] {
      var n, rest := s[0], s[1..];
      assert s == [n] + rest;
      PrependUniqueIds(n, rest);
      WithoutIdKeepsUniqueIds(rest, k);
      var kept := WithoutId(rest, k);
      assert WithoutId(s, k) == (if n.id != k then [n] else []) + kept;
      if n.id != k {
        PrependUniqueIds(n, kept);
      } else {
        assert [] + kept == kept;
      }
    }
  }

  /** The network (`ContentAddressableNetwork`). The SHA-1 digest of a key's
      encoding is computed outside the model and supplied as `digest`. */
  class Network {
    var nodes: seq<Node>
    const digest: string -> Sha1Digest

    constructor (digest: string -> Sha1Digest)
      ensures nodes == [] && this.digest == digest
      ensures FullMesh()
    {
      nodes := [];
      this.digest := digest;
    }

    /** Every member's neighbours are all the members except itself, in member order. */
    ghost predicate FullMesh()
      reads this, nodes
    {
      forall n :: n in nodes ==> n.neighbours == Without(nodes, n)
    }

    /** The key's digest as an integer: a 160-bit number. */
    function Hash(data: string): (h: nat)
      ensures h < Pow256(20)
    {
      BigEndian(digest(data))
    }

    /** Two keys hash to the same integer exactly when their digests agree. */
    lemma HashDistinguishesDigests(a: string, b: string)
      ensures Hash(a) == Hash(b) <==> digest(a) == digest(b)
    {
      BigEndianInjective(digest(a), digest(b));
    }

    /** Rebuilds every member's neighbour list (`update_neighbours`). The inner
        loop collects the list in a local variable before storing it; nothing can
        observe the list in between, so this is the same as appending in place. */
    method UpdateNeighbours()
      modifies nodes`neighbours
      ensures FullMesh()
    {
      var i := 0;
      while i < |nodes|
        invariant 0 <= i <= |nodes|
        invariant forall k :: 0 <= k < i ==> nodes[k].neighbours == Without(nodes, nodes[k])
      {
        var node := nodes[i];
        var others := [];
        var j := 0;
        while j < |nodes|
          invariant 0 <= j <= |nodes|
          invariant others == Without(nodes[..j], node)
          modifies {}
        {
          WithoutPrefix(nodes, j, node);
          if nodes[j] != node {
            others := others + [nodes[j]];
          }
          j := j + 1;
        }
        assert nodes[..|nodes|] == nodes;
        node.neighbours := others;
        i := i + 1;
      }
    }

    /** Appends `node` to the members and restores the full mesh (`add_node`).
        Duplicate ids are accepted. */
    method AddNode(node: Node)
      modifies this`nodes, nodes`neighbours, node`neighbours
      ensures nodes == old(nodes) + [node]
      ensures FullMesh()
      ensures UniqueIds(nodes) <==> old(UniqueIds(nodes)) && forall m :: m in old(nodes) ==> m.id != node.id
    {
      AppendUniqueIds(nodes, node);
      nodes := nodes + [node];
      UpdateNeighbours();
    }

    /** Drops every member with id `k` and purges id `k` from the remaining
        members' neighbour lists (`remove_node`). Removed members keep their lists. */
    method RemoveNode(k: int)
      modifies this`nodes, nodes`neighbours
      ensures nodes == WithoutId(old(nodes), k)
      ensures forall n :: n in nodes ==> n.neighbours == WithoutId(old(n.neighbours), k)
      ensures forall n :: n in old(nodes) && n !in nodes ==> n.neighbours == old(n.neighbours)
      ensures old(FullMesh()) ==> FullMesh()
      ensures old(UniqueIds(nodes)) ==> UniqueIds(nodes)
    {
      nodes := WithoutId(nodes, k);
      assert forall i :: 0 <= i < |nodes| ==> nodes[i] in old(nodes);
      PurgeNeighbours(k);
      if old(UniqueIds(nodes)) {
        WithoutIdKeepsUniqueIds(old(nodes), k);
      }
      if old(FullMesh()) {
        forall n | n in nodes ensures n.neighbours == Without(nodes, n) {
          assert n in old(nodes) && old(n.neighbours) == Without(old(nodes), n);
          WithoutCommutes(old(nodes), n, k);
        }
      }
    }

    /** The loop of `remove_node`: drops the entries with id `k` from the
        neighbour list of every member, once per occurrence in `nodes`. */
    method PurgeNeighbours(k: int)
      modifies nodes`neighbours
      ensures forall n :: n in nodes ==> n.neighbours == WithoutId(old(n.neighbours), k)
    {
      var i := 0;
      while i < |nodes|
        invariant 0 <= i <= |nodes|
        invariant forall n :: n in nodes[..i] ==> n.neighbours == WithoutId(old(n.neighbours), k)
        invariant forall n :: n in nodes && n !in nodes[..i] ==> n.neighbours == old(n.neighbours)
      {
        var n := nodes[i];
        if n in nodes[..i] {
          WithoutIdIdempotent(old(n.neighbours), k);
        }
        n.neighbours := WithoutId(n.neighbours, k);
        assert nodes[..i + 1] == nodes[..i] + [n];
        i := i + 1;
      }
      assert nodes[..|nodes|] == nodes;
    }

    /** The first member, in member order, whose distance to the target of
        `data`'s hash is minimal; `None` for an empty network (`get_closest_node`). */
    method GetClosestNode(data: string) returns (closest: Option<Node>)
      ensures closest == None <==> nodes == []
      ensures closest.Some? ==>
        exists i :: 0 <= i < |nodes| && closest.value == nodes[i] && FirstNearest(PositionsOf(nodes), Target(Hash(data)), i)
    {
      var t := Target(Hash(data));
      ghost var ps := PositionsOf(nodes);
      closest := None;
      var minDistance := 0;
      ghost var best := 0;
      var i := 0;
      while i < |nodes|
        invariant 0 <= i <= |nodes|
        invariant closest == None <==> i == 0
        invariant closest.Some? ==> 0 <= best < i && closest.value == nodes[best]
        invariant closest.Some? ==> minDistance == SquaredDistance(ps[best], t)
        invariant closest.Some? ==> forall j :: 0 <= j < i ==> minDistance <= SquaredDistance(ps[j], t)
        invariant closest.Some? ==> forall j :: 0 <= j < best ==> minDistance < SquaredDistance(ps[j], t)
      {
        var d := SquaredDistance(nodes[i].position, t);
        if closest == None || d < minDistance {
          minDistance := d;
          closest := Some(nodes[i]);
          best := i;
        }
        i := i + 1;
      }
      assert closest.Some? ==> FirstNearest(ps, t, best);
    }
  }
}
