/**
 * net.js: a `BitcoinNet` hands out nodes on fresh ports, connects a list of nodes to its
 * first one, and cuts every connection between two groups of nodes.
 */
module Net {

  import opened Wrappers
  import opened JsText
  import opened Utils
  import opened Nodes

  /** The host every launched node listens on. */
  const Localhost: string := "127.0.0.1"

  /** The references of a group of nodes, as a set. */
  function RefSet(nodes: seq<Node>): (refs: set<string>)
    ensures forall k :: 0 <= k < |nodes| ==> nodes[k].Ref() in refs
  {
    set k | 0 <= k < |nodes| :: nodes[k].Ref()
  }

  /** Every addNode call succeeds. */
  ghost predicate AddsSucceed(rpc: RpcCall -> Reply)
  {
    forall r :: rpc(AddNode(r, "onetry")).err.None?
  }

  /** Every disconnectNode call succeeds. */
  ghost predicate DisconnectsSucceed(rpc: RpcCall -> Reply)
  {
    forall r :: rpc(DisconnectNode(r)).err.None?
  }

  lemma {:induction false} WithoutTwice(xs: seq<string>, x: set<string>, y: set<string>)
    ensures Without(Without(xs, x), y) == Without(xs, x + y)
    decreases |xs|
  {
    if xs != [] {
      WithoutTwice(xs[1..], x, y);
      var head := if xs[0] in x then [] else [xs[0]];
      WithoutAppend(head, Without(xs[1..], x), y);
      assert Without(head, y) == if xs[0] in x + y then [] else [xs[0]] by {
        if head != [] {
          assert head[1..] == [];
        }
      }
    }
  }

  /** The entries group `a`'s node may lose when the two groups are cut apart. */
  function Cross(n: Node, a: seq<Node>, b: seq<Node>): set<string>
  {
    (if n in a then RefSet(b) else {}) + (if n in b then RefSet(a) else {})
  }

  /** The two loops of disconnectGroups on one node's list: c0 before, c1 between, c2
      after; inA / inB say which groups the node belongs to. */
  lemma CutTwice(c0: seq<string>, c1: seq<string>, c2: seq<string>, inA: bool, inB: bool,
                 ra: set<string>, rb: set<string>)
    requires inA ==> NoDuplicates(c1) && (forall r :: r in c1 ==> r in c0) && Without(c1, rb) == Without(c0, rb)
    requires !inA ==> c1 == c0
    requires inB ==> NoDuplicates(c2) && (forall r :: r in c2 ==> r in c1) && Without(c2, ra) == Without(c1, ra)
    requires !inB ==> c2 == c1
    ensures forall r :: r in c2 ==> r in c0
    ensures var drop := (if inA then rb else {}) + (if inB then ra else {});
      Without(c2, drop) == Without(c0, drop)
  {
    if inA && inB {
      WithoutTwice(c2, ra, rb);
      WithoutTwice(c1, ra, rb);
      WithoutTwice(c1, rb, ra);
      WithoutTwice(c0, rb, ra);
      assert rb + ra == ra + rb;
    } else if inA {
      assert rb + {} == rb;
    } else if inB {
      assert {} + ra == ra;
    }
  }

  /** A node whose list at `before` had no entry in drop: the cut leaves it as it was. */
  lemma UntouchedWithoutCross(before: seq<string>, after: seq<string>, drop: set<string>)
    requires forall r :: r in before ==> r !in drop
    requires forall r :: r in after ==> r in before
    requires Without(after, drop) == Without(before, drop)
    ensures after == before
  {
    WithoutNone(before, drop);
    WithoutNone(after, drop);
  }

  lemma {:induction false} WithoutNone(xs: seq<string>, drop: set<string>)
    requires forall r :: r in xs ==> r !in drop
    ensures Without(xs, drop) == xs
    decreases |xs|
  {
    if xs != [] {
      WithoutNone(xs[1..], drop);
      assert [xs[0]] + xs[1..] == xs;
    }
  }

  class BitcoinNet {
    const path: string
    const cfgprefix: string
    var nextport: nat
    var nextrpcport: nat
    var nodes: seq<Node>

    /** All nodes run on localhost on ports below `nextport`, no two on the same port. */
    predicate Valid()
      reads this
    {
      (forall k :: 0 <= k < |nodes| ==> nodes[k].host == Localhost && nodes[k].port < nextport) &&
      (forall i, j :: 0 <= i < j < |nodes| ==> nodes[i].port < nodes[j].port)
    }

    /** `new BitcoinNet(path, cfgprefix, portstart, rpcportstart)`. */
    constructor (path: string, cfgprefix: string, portstart: nat, rpcportstart: nat)
      ensures this.path == path && this.cfgprefix == cfgprefix
      ensures nextport == portstart && nextrpcport == rpcportstart && nodes == []
      ensures Valid()
    {
      this.path := path;
      this.cfgprefix := cfgprefix;
      nextport := portstart;
      nextrpcport := rpcportstart;
      nodes := [];
    }

    /** `launchBatch(count, cb)` up to starting the processes: `count` new nodes ten ports
        apart, each recorded in `nodes` and in the batch. */
    method LaunchBatch(count: nat) returns (batch: seq<Node>)
      modifies this
      ensures |batch| == count && nodes == old(nodes) + batch
      ensures nextport == old(nextport) + 10 * count && nextrpcport == old(nextrpcport) + 10 * count
      ensures forall k :: 0 <= k < count ==>
        fresh(batch[k]) && batch[k].connections == [] && batch[k].path == path &&
        batch[k].host == Localhost && batch[k].port == old(nextport) + 10 * k &&
        batch[k].rpcport == old(nextrpcport) + 10 * k &&
        batch[k].cfgpath == cfgprefix + "/" + Decimal(batch[k].port)
      ensures old(Valid()) ==> Valid()
    {
      batch := [];
      var i := 0;
      while i < count
        invariant 0 <= i <= count && |batch| == i && nodes == old(nodes) + batch
        invariant nextport == old(nextport) + 10 * i && nextrpcport == old(nextrpcport) + 10 * i
        invariant forall k :: 0 <= k < i ==>
          fresh(batch[k]) && batch[k].connections == [] && batch[k].path == path &&
          batch[k].host == Localhost && batch[k].port == old(nextport) + 10 * k &&
          batch[k].rpcport == old(nextrpcport) + 10 * k &&
          batch[k].cfgpath == cfgprefix + "/" + Decimal(batch[k].port)
        invariant old(Valid()) ==> Valid()
      {
        var node := new Node(path, cfgprefix + "/" + Decimal(nextport), Localhost, nextport, nextrpcport);
        nodes := nodes + [node];
        batch := batch + [node];
        nextport := nextport + 10;
        nextrpcport := nextrpcport + 10;
        i := i + 1;
      }
    }

    /** No two nodes of the net answer to the same "host:port". */
    lemma DistinctRefs()
      requires Valid()
      ensures forall i, j :: 0 <= i < j < |nodes| ==> nodes[i].Ref() != nodes[j].Ref()
    {
      forall i, j | 0 <= i < j < |nodes|
        ensures nodes[i].Ref() != nodes[j].Ref()
      {
        if nodes[i].Ref() == nodes[j].Ref() {
          RefOfInjective(Localhost, nodes[i].port, nodes[j].port);
        }
      }
    }

    /** `connectNodes(nodes, cb)`: the first node connects to all the others. */
    method ConnectNodes(nodes: seq<Node>, rpc: RpcCall -> Reply) returns (err: Option<Err>, v: seq<Option<string>>)
      requires |nodes| >= 1
      modifies nodes[0]
      ensures Applied(nodes[0].connections, err, v) == ConnectRun(rpc, old(nodes[0].connections), Refs(nodes[1..]))
      ensures old(nodes[0].Valid()) && AddsSucceed(rpc) ==>
        err.None? && forall k :: 1 <= k < |nodes| ==> nodes[0].IsConnected(nodes[k], false)
    {
      var connector := nodes[0];
      ghost var c0 := connector.connections;
      err, v := connector.ConnectAll(nodes[1..], rpc);
      if old(connector.Valid()) && AddsSucceed(rpc) {
        ConnectRunFacts(rpc, c0, Refs(nodes[1..]));
        forall k | 1 <= k < |nodes|
          ensures nodes[0].IsConnected(nodes[k], false)
        {
          assert Refs(nodes[1..])[k - 1] == nodes[k].Ref();
        }
      }
    }

    /** `disconnectGroups(nodegroupA, nodegroupB)`, each node's disconnect run to its end:
        only cross-group entries go, and when every disconnectNode succeeds, no node of A is
        connected to a node of B in either direction. */
    method DisconnectGroups(nodegroupA: seq<Node>, nodegroupB: seq<Node>, rpc: RpcCall -> Reply)
      requires forall n :: n in nodegroupA + nodegroupB ==> n.Valid()
      modifies set n | n in nodegroupA + nodegroupB
      ensures forall n :: n in nodegroupA + nodegroupB ==>
        n.Valid() && (forall r :: r in n.connections ==> r in old(n.connections)) &&
        Without(n.connections, Cross(n, nodegroupA, nodegroupB)) ==
        Without(old(n.connections), Cross(n, nodegroupA, nodegroupB))
      ensures DisconnectsSucceed(rpc) ==>
        forall a, b :: a in nodegroupA && b in nodegroupB ==> !a.IsConnected(b, true)
    {
      label Start:
      DisconnectFrom(nodegroupA, nodegroupB, rpc);
      label Between:
      DisconnectFrom(nodegroupB, nodegroupA, rpc);
      forall n | n in nodegroupA + nodegroupB
        ensures n.Valid() && (forall r :: r in n.connections ==> r in old(n.connections))
        ensures Without(n.connections, Cross(n, nodegroupA, nodegroupB)) ==
          Without(old(n.connections), Cross(n, nodegroupA, nodegroupB))
      {
        CutTwice(old(n.connections), old@Between(n.connections), n.connections,
                 n in nodegroupA, n in nodegroupB, RefSet(nodegroupA), RefSet(nodegroupB));
      }
      if DisconnectsSucceed(rpc) {
        forall a, b | a in nodegroupA && b in nodegroupB
          ensures !a.IsConnected(b, true)
        {
          assert b.Ref() !in old@Between(a.connections);
        }
      }
    }

    /** The first loop of disconnectGroups: every node of `group` drops its entries for
        `others`. */
    method DisconnectFrom(group: seq<Node>, others: seq<Node>, rpc: RpcCall -> Reply)
      requires forall n :: n in group ==> n.Valid()
      modifies set n | n in group
      ensures forall n :: n in group ==>
        n.Valid() && (forall r :: r in n.connections ==> r in old(n.connections)) &&
        Without(n.connections, RefSet(others)) == Without(old(n.connections), RefSet(others))
      ensures DisconnectsSucceed(rpc) ==>
        forall a, b :: a in group && b in others ==> b.Ref() !in a.connections
    {
      var i := 0;
      while i < |group|
        invariant 0 <= i <= |group|
        invariant forall n :: n in group ==>
          n.Valid() && (forall r :: r in n.connections ==> r in old(n.connections)) &&
          Without(n.connections, RefSet(others)) == Without(old(n.connections), RefSet(others))
        invariant DisconnectsSucceed(rpc) ==>
          forall k, b :: 0 <= k < i && b in others ==> b.Ref() !in group[k].connections
      {
        DisconnectMember(group[i], others, rpc);
        i := i + 1;
      }
    }

    /** One pass of that loop: `a.disconnect(a.getConnected(others))`. */
    method DisconnectMember(a: Node, others: seq<Node>, rpc: RpcCall -> Reply)
      requires a.Valid()
      modifies a
      ensures a.Valid() && (forall r :: r in a.connections ==> r in old(a.connections))
      ensures Without(a.connections, RefSet(others)) == Without(old(a.connections), RefSet(others))
      ensures DisconnectsSucceed(rpc) ==> forall b :: b in others ==> b.Ref() !in a.connections
    {
      var connections := a.GetConnected(others);
      var _, _ := a.DisconnectAll(connections, rpc);
      DisconnectOne(a, old(a.connections), others, connections, rpc);
    }

    /** One node of that loop: what DisconnectAll over its connected peers leaves. */
    lemma DisconnectOne(a: Node, before: seq<string>, others: seq<Node>, connections: seq<Node>,
                        rpc: RpcCall -> Reply)
      requires NoDuplicates(before)
      requires connections == ConnectedIn(before, others)
      requires a.connections == DisconnectRun(rpc, before, Refs(connections)).state
      ensures a.Valid() && (forall r :: r in a.connections ==> r in before)
      ensures Without(a.connections, RefSet(others)) == Without(before, RefSet(others))
      ensures DisconnectsSucceed(rpc) ==> forall b :: b in others ==> b.Ref() !in a.connections
    {
      assert forall r :: r in Refs(connections) ==> r in RefSet(others) by {
        forall r | r in Refs(connections)
          ensures r in RefSet(others)
        {
          var k :| 0 <= k < |connections| && Refs(connections)[k] == r;
        }
      }
      DisconnectRunFacts(rpc, before, Refs(connections), RefSet(others));
      if DisconnectsSucceed(rpc) {
        forall b | b in others
          ensures b.Ref() !in a.connections
        {
          if b.Ref() in before {
            ConnectedInMembers(before, others);
            var k :| 0 <= k < |connections| && connections[k] == b;
            assert Refs(connections)[k] == b.Ref();
          }
        }
      }
    }
  }
}
