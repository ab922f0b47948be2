/**
 * node.js, the connection bookkeeping of a `Node`: the `connections` list of "host:port"
 * references, `isConnected`, `getConnected`, `connect`, `disconnect`, and `apply`, which
 * runs connect or disconnect over a list of peers one after another.  The RPC client is an
 * oracle: a function from the call made to the (error, result) pair its callback receives.
 */
module Nodes {

  import opened Wrappers
  import opened JsText
  import opened Utils

  /** `${host}:${port}`. */
  function RefOf(host: string, port: nat): string
  {
    host + ":" + Decimal(port)
  }

  /** On one host, "host:port" names one port. */
  lemma RefOfInjective(host: string, p1: nat, p2: nat)
    requires RefOf(host, p1) == RefOf(host, p2)
    ensures p1 == p2
  {
    var r := RefOf(host, p1);
    assert Decimal(p1) == r[|host| + 1..] == Decimal(p2);
    DecimalInjective(p1, p2);
  }

  /** The RPCs the bookkeeping issues. */
  datatype RpcCall = AddNode(ref: string, mode: string) | DisconnectNode(ref: string)

  /** The (err, result) pair a callback receives; a falsy error is None. */
  datatype Reply = Reply(err: Option<Err>, result: Option<string>)

  /** `cb(null)`: what connect and disconnect answer when there is nothing to do. */
  const NoOp: Reply := Reply(None, None)

  // ---------------------------------------------------------------------------
  // apply: async.eachSeries over the items with one step per item

  /** The state after the run, the error the final callback receives, and the results the
      successful items pushed. */
  datatype Applied<S> = Applied(state: S, err: Option<Err>, results: seq<Option<string>>)

  /** `apply(arr, fun, cb)`: the items in order; the first error ends the run; a successful
      item pushes its result. */
  function Apply<S>(step: (S, string) -> (S, Reply), s: S, items: seq<string>): Applied<S>
    decreases |items|
  {
    if items == [] then Applied(s, None, [])
    else
      var first := step(s, items[0]);
      if first.1.err.Some? then Applied(first.0, first.1.err, [])
      else
        var rest := Apply(step, first.0, items[1..]);
        Applied(rest.state, rest.err, [first.1.result] + rest.results)
  }

  /** Every step succeeding, the run ends without error with one result per item. */
  lemma {:induction false} ApplyAllSucceed<S>(step: (S, string) -> (S, Reply), s: S, items: seq<string>)
    requires forall x: S, i :: i in items ==> step(x, i).1.err.None?
    ensures Apply(step, s, items).err.None? && |Apply(step, s, items).results| == |items|
    decreases |items|
  {
    if items != [] {
      ApplyAllSucceed(step, step(s, items[0]).0, items[1..]);
    }
  }

  /** A run that ends with an error stopped at item k, the first that failed: it is the run
      over items[..k + 1], and the results are those of the k items before. */
  lemma {:induction false} ApplyFirstError<S>(step: (S, string) -> (S, Reply), s: S, items: seq<string>)
    returns (k: nat)
    requires Apply(step, s, items).err.Some?
    ensures k < |items|
    ensures Apply(step, s, items) == Apply(step, s, items[..k + 1])
    ensures Apply(step, s, items[..k]).err.None?
    ensures Apply(step, s, items[..k]).results == Apply(step, s, items).results
    ensures |Apply(step, s, items).results| == k
    decreases |items|
  {
    var first := step(s, items[0]);
    if first.1.err.Some? {
      k := 0;
      assert items[..1][1..] == [];
    } else {
      var k' := ApplyFirstError(step, first.0, items[1..]);
      k := k' + 1;
      assert items[..k + 1][1..] == items[1..][..k' + 1];
      assert items[..k][1..] == items[1..][..k'];
    }
  }

  /** A property every step keeps holds after the run. */
  lemma {:induction false} ApplyPreserves<S>(step: (S, string) -> (S, Reply), s: S, items: seq<string>,
                                             P: S -> bool)
    requires P(s)
    requires forall x: S, i :: i in items && P(x) ==> P(step(x, i).0)
    ensures P(Apply(step, s, items).state)
    decreases |items|
  {
    if items != [] {
      ApplyPreserves(step, step(s, items[0]).0, items[1..], P);
    }
  }

  // ---------------------------------------------------------------------------
  // connect and disconnect on the list

  /** `connect(node)` for the reference `ref`: a recorded peer is answered at once, any
      other is appended and then asked for with addNode. */
  function ConnectStep(rpc: RpcCall -> Reply, conns: seq<string>, ref: string): (seq<string>, Reply)
  {
    if ref in conns then (conns, NoOp) else (conns + [ref], rpc(AddNode(ref, "onetry")))
  }

  /** `disconnect(node)`: an unrecorded peer is answered at once, a recorded one is removed
      and then dropped with disconnectNode. */
  function DisconnectStep(rpc: RpcCall -> Reply, conns: seq<string>, ref: string): (seq<string>, Reply)
  {
    if ref !in conns then (conns, NoOp) else (WithoutLast(conns, ref), rpc(DisconnectNode(ref)))
  }

  function ConnectRun(rpc: RpcCall -> Reply, conns: seq<string>, refs: seq<string>): Applied<seq<string>>
  {
    Apply((c, r) => ConnectStep(rpc, c, r), conns, refs)
  }

  function DisconnectRun(rpc: RpcCall -> Reply, conns: seq<string>, refs: seq<string>): Applied<seq<string>>
  {
    Apply((c, r) => DisconnectStep(rpc, c, r), conns, refs)
  }

  /** The elements of xs outside drop, in their order. */
  function Without(xs: seq<string>, drop: set<string>): (ys: seq<string>)
    ensures |ys| <= |xs|
  {
    if xs == [] then [] else (if xs[0] in drop then [] else [xs[0]]) + Without(xs[1..], drop)
  }

  lemma {:induction false} WithoutMembers(xs: seq<string>, drop: set<string>)
    ensures forall y :: y in Without(xs, drop) <==> y in xs && y !in drop
    decreases |xs|
  {
    if xs != [] {
      WithoutMembers(xs[1..], drop);
      assert forall y :: y in xs <==> y == xs[0] || y in xs[1..];
    }
  }

  lemma {:induction false} WithoutAppend(a: seq<string>, b: seq<string>, drop: set<string>)
    ensures Without(a + b, drop) == Without(a, drop) + Without(b, drop)
    decreases |a|
  {
    if a == [] {
      assert a + b == b;
    } else {
      assert (a + b)[1..] == a[1..] + b;
      WithoutAppend(a[1..], b, drop);
    }
  }

  /** Removing an element of drop does not change what is left outside drop. */
  lemma WithoutLastOutside(xs: seq<string>, v: string, drop: set<string>)
    requires v in drop
    ensures Without(WithoutLast(xs, v), drop) == Without(xs, drop)
  {
    var i := LastIndexOf(xs, v);
    if i >= 0 {
      var a, b := xs[..i], xs[i + 1..];
      assert xs == a + ([v] + b);
      assert WithoutLast(xs, v) == a + b;
      WithoutAppend(a, [v] + b, drop);
      WithoutAppend([v], b, drop);
      WithoutAppend(a, b, drop);
      assert [v][1..] == [];
    }
  }

  lemma NoDuplicatesSnoc(xs: seq<string>, v: string)
    requires NoDuplicates(xs) && v !in xs
    ensures NoDuplicates(xs + [v])
  {
    forall a, b | 0 <= a < b < |xs| + 1
      ensures (xs + [v])[a] != (xs + [v])[b]
    {
      if b == |xs| {
        assert (xs + [v])[a] == xs[a];
      }
    }
  }

  /** Connecting keeps the list free of duplicates, keeps what was there in place, and adds
      only the references asked for; when every addNode succeeds, every one of them is
      recorded. */
  lemma ConnectRunFacts(rpc: RpcCall -> Reply, conns: seq<string>, refs: seq<string>)
    requires NoDuplicates(conns)
    ensures var c := ConnectRun(rpc, conns, refs).state;
      NoDuplicates(c) && conns <= c && (forall r :: r in c ==> r in conns || r in refs)
    ensures (forall r :: rpc(AddNode(r, "onetry")).err.None?) ==>
      ConnectRun(rpc, conns, refs).err.None? &&
      forall r :: r in ConnectRun(rpc, conns, refs).state <==> r in conns || r in refs
  {
    var step := (c, r) => ConnectStep(rpc, c, r);
    var P := (c: seq<string>) => NoDuplicates(c) && conns <= c && (forall r :: r in c ==> r in conns || r in refs);
    forall x: seq<string>, i | i in refs && P(x)
      ensures P(step(x, i).0)
    {
      if i !in x {
        NoDuplicatesSnoc(x, i);
        assert conns <= x + [i] by {
          assert (x + [i])[..|conns|] == x[..|conns|];
        }
      }
    }
    ApplyPreserves(step, conns, refs, P);
    if forall r :: rpc(AddNode(r, "onetry")).err.None? {
      forall x: seq<string>, i | i in refs
        ensures step(x, i).1.err.None?
      {
      }
      ApplyAllSucceed(step, conns, refs);
      ConnectRecordsAll(rpc, conns, refs);
    }
  }

  lemma {:induction false} ConnectRecordsAll(rpc: RpcCall -> Reply, conns: seq<string>, refs: seq<string>)
    requires forall r :: rpc(AddNode(r, "onetry")).err.None?
    ensures forall r :: r in conns || r in refs ==> r in ConnectRun(rpc, conns, refs).state
    decreases |refs|
  {
    if refs != [] {
      var c1 := ConnectStep(rpc, conns, refs[0]).0;
      ConnectRecordsAll(rpc, c1, refs[1..]);
      assert ConnectRun(rpc, conns, refs) == Applied(ConnectRun(rpc, c1, refs[1..]).state,
        ConnectRun(rpc, c1, refs[1..]).err, [ConnectStep(rpc, conns, refs[0]).1.result] + ConnectRun(rpc, c1, refs[1..]).results);
      forall r | r in conns || r in refs
        ensures r in c1 || r in refs[1..]
      {
        if r in refs && r !in refs[1..] {
          assert r == refs[0];
        }
      }
    }
  }

  /** Disconnecting keeps the list free of duplicates, only removes, and leaves everything
      outside drop exactly as it was (the references asked for lie in drop); when every
      disconnectNode succeeds, none of them is left. */
  lemma DisconnectRunFacts(rpc: RpcCall -> Reply, conns: seq<string>, refs: seq<string>, drop: set<string>)
    requires NoDuplicates(conns) && forall r :: r in refs ==> r in drop
    ensures var c := DisconnectRun(rpc, conns, refs).state;
      NoDuplicates(c) && (forall r :: r in c ==> r in conns) && Without(c, drop) == Without(conns, drop)
    ensures (forall r :: rpc(DisconnectNode(r)).err.None?) ==>
      DisconnectRun(rpc, conns, refs).err.None? &&
      forall r :: r in refs ==> r !in DisconnectRun(rpc, conns, refs).state
  {
    var step := (c, r) => DisconnectStep(rpc, c, r);
    var P := (c: seq<string>) => NoDuplicates(c) && (forall r :: r in c ==> r in conns) &&
      Without(c, drop) == Without(conns, drop);
    forall x: seq<string>, i | i in refs && P(x)
      ensures P(step(x, i).0)
    {
      if i in x {
        WithoutLastNoDuplicates(x, i);
        WithoutLastFacts(x, i);
        WithoutLastOutside(x, i, drop);
      }
    }
    ApplyPreserves(step, conns, refs, P);
    if forall r :: rpc(DisconnectNode(r)).err.None? {
      forall x: seq<string>, i | i in refs
        ensures step(x, i).1.err.None?
      {
      }
      ApplyAllSucceed(step, conns, refs);
      DisconnectDropsAll(rpc, conns, refs);
    }
  }

  lemma {:induction false} DisconnectDropsAll(rpc: RpcCall -> Reply, conns: seq<string>, refs: seq<string>)
    requires NoDuplicates(conns) && forall r :: rpc(DisconnectNode(r)).err.None?
    ensures forall r :: r in refs ==> r !in DisconnectRun(rpc, conns, refs).state
    ensures forall r :: r !in conns ==> r !in DisconnectRun(rpc, conns, refs).state
    decreases |refs|
  {
    if refs != [] {
      var first := DisconnectStep(rpc, conns, refs[0]);
      WithoutLastNoDuplicates(conns, refs[0]);
      WithoutLastFacts(conns, refs[0]);
      DisconnectDropsAll(rpc, first.0, refs[1..]);
      assert DisconnectRun(rpc, conns, refs).state == DisconnectRun(rpc, first.0, refs[1..]).state;
      forall r | r in refs
        ensures r !in DisconnectRun(rpc, conns, refs).state
      {
        if r !in refs[1..] {
          assert r == refs[0];
        }
      }
    }
  }

  // ---------------------------------------------------------------------------
  // waitUntilReady: getInfo polled until bitcoind answers, fails for good, or time runs out

  /** An RPC error; a falsy `code` is None. */
  datatype RpcError = RpcError(code: Option<int>, message: string)

  /** One getInfo reply: its error and whether a result came with it. */
  datatype Poll = Poll(err: Option<RpcError>, hasResult: bool)

  /** What the iteratee does with a reply: poll again after a delay, or end the loop with
      the error it hands to `cb`. */
  datatype Action = Retry(delayMs: nat) | Stop(err: Option<string>)

  /** How the whilst loop ends: the deadline passed, or the iteratee stopped it. */
  datatype Ending = Expired | Stopped(err: Option<string>)

  const Unauthorized: string := "bitcoin JSON-RPC connection rejected: 401 unauthorized"

  function UnknownError(client: string, port: nat, rpcport: nat): string
  {
    "unknown bitcoind error; make sure node is configured: client=" + client + ", port=" +
    Decimal(port) + ", rpcport=" + Decimal(rpcport)
  }

  /** The connection was refused, or bitcoind answered -9 while starting up. */
  predicate ConnectionFailure(p: Poll)
  {
    p.err.Some? && (!p.hasResult || p.err.value.code == Some(-9))
  }

  /** The iteratee's branches on one reply, with the `connFailurePrint` flag before and
      after; `fatal` is the unknown-error message. */
  function Classify(p: Poll, connFailurePrint: bool, fatal: string): (Action, bool)
  {
    if p.err.None? then (Stop(None), connFailurePrint)
    else if ConnectionFailure(p) then
      if connFailurePrint && p.err.value.message == Unauthorized then (Stop(Some("404 unauthorized")), connFailurePrint)
      else (Retry(200), false)
    else if p.err.value.code == Some(-10) then (Retry(1000), connFailurePrint)
    else if p.err.value.code == Some(-28) then (Retry(300), connFailurePrint)
    else (Stop(Some(fatal)), connFailurePrint)
  }

  /** The whilst loop over the replies that arrive before the deadline. */
  function Run(polls: seq<Poll>, connFailurePrint: bool, fatal: string): Ending
    decreases |polls|
  {
    if polls == [] then Expired
    else
      var c := Classify(polls[0], connFailurePrint, fatal);
      if c.0.Stop? then Stopped(c.0.err) else Run(polls[1..], c.1, fatal)
  }

  /** The final callback as written: it ignores the error whilst hands it. */
  function ReportedAsWritten(e: Ending): (r: Option<string>)
    ensures r.Some? <==> e.Expired?
    ensures e.Expired? ==> r == Some("timeout")
  {
    if e.Expired? then Some("timeout") else None
  }

  /** The final callback passing on the iteratee's error. */
  function Reported(e: Ending): (r: Option<string>)
    ensures e.Expired? ==> r == Some("timeout")
    ensures e.Stopped? ==> r == e.err
  {
    match e
    case Expired => Some("timeout")
    case Stopped(err) => err
  }

  /** A reply after which polling goes on whatever the flag says. */
  predicate Transient(p: Poll)
  {
    p.err.Some? &&
    ((ConnectionFailure(p) && p.err.value.message != Unauthorized) ||
     (!ConnectionFailure(p) && (p.err.value.code == Some(-10) || p.err.value.code == Some(-28))))
  }

  /** Only a reply without error reports bitcoind ready. */
  lemma {:induction false} ReadyOnlyOnAnswer(polls: seq<Poll>, connFailurePrint: bool, fatal: string)
    returns (k: nat)
    requires Run(polls, connFailurePrint, fatal) == Stopped(None)
    ensures k < |polls| && polls[k].err.None?
    decreases |polls|
  {
    var c := Classify(polls[0], connFailurePrint, fatal);
    if c.0.Stop? {
      k := 0;
    } else {
      var k' := ReadyOnlyOnAnswer(polls[1..], c.1, fatal);
      k := k' + 1;
    }
  }

  /** The first reply without error after transient failures reports bitcoind ready. */
  lemma {:induction false} ReadyAfterTransients(polls: seq<Poll>, k: nat, connFailurePrint: bool, fatal: string)
    requires k < |polls| && polls[k].err.None?
    requires forall j :: 0 <= j < k ==> Transient(polls[j])
    ensures Run(polls, connFailurePrint, fatal) == Stopped(None)
    decreases k
  {
    if k > 0 {
      assert Transient(polls[0]);
      ReadyAfterTransients(polls[1..], k - 1, Classify(polls[0], connFailurePrint, fatal).1, fatal);
    }
  }

  /** Nothing but transient failures before the deadline: the wait times out. */
  lemma {:induction false} ExpiresAfterTransients(polls: seq<Poll>, connFailurePrint: bool, fatal: string)
    requires forall j :: 0 <= j < |polls| ==> Transient(polls[j])
    ensures Run(polls, connFailurePrint, fatal) == Expired
    decreases |polls|
  {
    if polls != [] {
      assert Transient(polls[0]);
      ExpiresAfterTransients(polls[1..], Classify(polls[0], connFailurePrint, fatal).1, fatal);
    }
  }

  /** Once the loop stops it polls no more: later replies change nothing. */
  lemma {:induction false} StopIsFinal(polls: seq<Poll>, more: seq<Poll>, connFailurePrint: bool, fatal: string)
    requires Run(polls, connFailurePrint, fatal).Stopped?
    ensures Run(polls + more, connFailurePrint, fatal) == Run(polls, connFailurePrint, fatal)
    decreases |polls|
  {
    assert (polls + more)[0] == polls[0];
    var c := Classify(polls[0], connFailurePrint, fatal);
    if !c.0.Stop? {
      assert (polls + more)[1..] == polls[1..] + more;
      StopIsFinal(polls[1..], more, c.1, fatal);
    }
  }

  /** The loop fails only with the 401 message or the unknown-error message. */
  lemma {:induction false} StopErrors(polls: seq<Poll>, connFailurePrint: bool, fatal: string)
    requires Run(polls, connFailurePrint, fatal).Stopped? && Run(polls, connFailurePrint, fatal).err.Some?
    ensures Run(polls, connFailurePrint, fatal).err.value in {"404 unauthorized", fatal}
    decreases |polls|
  {
    var c := Classify(polls[0], connFailurePrint, fatal);
    if !c.0.Stop? {
      StopErrors(polls[1..], c.1, fatal);
    }
  }

  /** A 401 is fatal only as the first connection failure; after a refused connection it is
      retried until the deadline. */
  lemma UnauthorizedAfterRefusal(fatal: string)
    ensures Run([Poll(Some(RpcError(None, Unauthorized)), false)], true, fatal) == Stopped(Some("404 unauthorized"))
    ensures Run([Poll(Some(RpcError(None, "")), false), Poll(Some(RpcError(None, Unauthorized)), false)], true, fatal) == Expired
  {
    var refused := Poll(Some(RpcError(None, "")), false);
    var rejected := Poll(Some(RpcError(None, Unauthorized)), false);
    assert [refused, rejected][1..] == [rejected];
    assert Classify(refused, true, fatal) == (Retry(200), false);
    assert Classify(rejected, false, fatal) == (Retry(200), false);
    assert Run([rejected], false, fatal) == Run([], false, fatal);
  }

  /** As written, waitUntilReady reports success after a fatal error: the rejected
      credentials and an unknown RPC error both reach `mcb()` with no argument. */
  lemma FatalReportedAsReady(fatal: string)
    ensures var e := Run([Poll(Some(RpcError(None, Unauthorized)), false)], true, fatal);
      ReportedAsWritten(e) == None && Reported(e) == Some("404 unauthorized")
    ensures var e := Run([Poll(Some(RpcError(Some(-1), "")), true)], true, fatal);
      ReportedAsWritten(e) == None && Reported(e) == Some(fatal)
  {
  }

  /** With the error passed on, success means bitcoind answered, and a fatal error is
      reported as that error. */
  lemma ReportedMeansReady(polls: seq<Poll>, fatal: string)
    ensures Reported(Run(polls, true, fatal)) == None ==> exists k :: 0 <= k < |polls| && polls[k].err.None?
    ensures Reported(Run(polls, true, fatal)).Some? ==>
      Reported(Run(polls, true, fatal)).value in {"timeout", "404 unauthorized", fatal}
  {
    if Reported(Run(polls, true, fatal)) == None {
      var k := ReadyOnlyOnAnswer(polls, true, fatal);
    }
    if Run(polls, true, fatal).Stopped? && Run(polls, true, fatal).err.Some? {
      StopErrors(polls, true, fatal);
    }
  }

  // ---------------------------------------------------------------------------
  // The node object

  class Node {
    const path: string
    const cfgpath: string
    const host: string
    const port: nat
    const rpcport: nat
    var connections: seq<string>

    /** `new Node(path, cfgpath, host, port, rpcport)`: no connections yet. */
    constructor (path: string, cfgpath: string, host: string, port: nat, rpcport: nat)
      ensures this.path == path && this.cfgpath == cfgpath && this.host == host
      ensures this.port == port && this.rpcport == rpcport && connections == []
    {
      this.path := path;
      this.cfgpath := cfgpath;
      this.host := host;
      this.port := port;
      this.rpcport := rpcport;
      connections := [];
    }

    /** How other nodes record this one. */
    function Ref(): string
    {
      RefOf(host, port)
    }

    /** The list never holds a reference twice. */
    predicate Valid()
      reads this
    {
      NoDuplicates(connections)
    }

    /** `isConnected(node, bidirectionalCheck)`: two `indexOf` lookups against -1, that is,
        node's reference is recorded here, or, when asked, this node's reference is recorded
        at node. */
    predicate IsConnected(node: Node, bidirectionalCheck: bool)
      reads this, node
      ensures IsConnected(node, bidirectionalCheck) <==>
        node.Ref() in connections || (bidirectionalCheck && Ref() in node.connections)
    {
      IndexOf(connections, node.Ref()) != -1 ||
      (bidirectionalCheck && IndexOf(node.connections, Ref()) != -1)
    }

    /** `getConnected(nodes)`. */
    method GetConnected(nodes: seq<Node>) returns (connected: seq<Node>)
      ensures connected == ConnectedIn(connections, nodes)
    {
      connected := [];
      var k := 0;
      while k < |nodes|
        invariant 0 <= k <= |nodes|
        invariant connected + ConnectedIn(connections, nodes[k..]) == ConnectedIn(connections, nodes)
      {
        ghost var here := if nodes[k].Ref() in connections then [nodes[k]] else [];
        ghost var prev := connected;
        assert nodes[k..][1..] == nodes[k + 1..];
        assert ConnectedIn(connections, nodes[k..]) == here + ConnectedIn(connections, nodes[k + 1..]);
        if nodes[k].Ref() in connections {
          connected := connected + [nodes[k]];
        }
        assert connected == prev + here;
        AppendAssoc(prev, here, ConnectedIn(connections, nodes[k + 1..]));
        k := k + 1;
      }
    }

    /** `waitUntilReady(mcb)` over the getInfo replies that arrive before the deadline, with
        the final callback passing on the iteratee's error; `client` is how the client
        object prints. */
    method WaitUntilReady(polls: seq<Poll>, client: string) returns (err: Option<string>)
      ensures err == Reported(Run(polls, true, UnknownError(client, port, rpcport)))
    {
      var fatal := UnknownError(client, port, rpcport);
      var waitForBitcoind := true;
      var connFailurePrint := true;
      var stopErr: Option<string> := None;
      var k := 0;
      while waitForBitcoind && k < |polls|
        invariant 0 <= k <= |polls|
        invariant waitForBitcoind ==> Run(polls, true, fatal) == Run(polls[k..], connFailurePrint, fatal)
        invariant !waitForBitcoind ==> Run(polls, true, fatal) == Stopped(stopErr)
      {
        assert polls[k..][1..] == polls[k + 1..];
        var p := polls[k];
        if p.err.Some? {
          if !p.hasResult || p.err.value.code == Some(-9) {
            if connFailurePrint {
              if p.err.value.message == Unauthorized {
                waitForBitcoind := false;
                stopErr := Some("404 unauthorized");
                break;
              }
              connFailurePrint := false;
            }
          } else if p.err.value.code == Some(-10) {
          } else if p.err.value.code == Some(-28) {
          } else {
            waitForBitcoind := false;
            stopErr := Some(fatal);
            break;
          }
        } else {
          waitForBitcoind := false;
          stopErr := None;
          break;
        }
        k := k + 1;
      }
      assert waitForBitcoind ==> polls[k..] == [];
      if waitForBitcoind {
        return Some("timeout");
      }
      err := stopErr;
    }

    /** `connect(node, cb)` for one node: the reply is what cb receives; `call` is the RPC
        issued, if any. */
    method Connect(node: Node, rpc: RpcCall -> Reply) returns (reply: Reply, call: Option<RpcCall>)
      modifies this`connections
      ensures (connections, reply) == ConnectStep(rpc, old(connections), node.Ref())
      ensures call == (if node.Ref() in old(connections) then None else Some(AddNode(node.Ref(), "onetry")))
      ensures old(Valid()) ==> Valid()
    {
      var noderef := node.Ref();
      if noderef in connections {
        return NoOp, None;
      }
      ghost var c0 := connections;
      connections := connections + [noderef];
      if old(Valid()) {
        NoDuplicatesSnoc(c0, noderef);
      }
      call := Some(AddNode(noderef, "onetry"));
      reply := rpc(call.value);
    }

    /** `disconnect(node, cb)` for one node. */
    method Disconnect(node: Node, rpc: RpcCall -> Reply) returns (reply: Reply, call: Option<RpcCall>)
      modifies this`connections
      ensures (connections, reply) == DisconnectStep(rpc, old(connections), node.Ref())
      ensures call == (if node.Ref() in old(connections) then Some(DisconnectNode(node.Ref())) else None)
      ensures old(Valid()) ==> Valid()
    {
      var noderef := node.Ref();
      if noderef !in connections {
        return NoOp, None;
      }
      ghost var c0 := connections;
      connections := RemoveOneByValue(connections, noderef);
      if old(Valid()) {
        WithoutLastNoDuplicates(c0, noderef);
      }
      call := Some(DisconnectNode(noderef));
      reply := rpc(call.value);
    }

    /** `connect(nodes, cb)`: `apply(nodes, 'connect', cb)`. */
    method ConnectAll(nodes: seq<Node>, rpc: RpcCall -> Reply) returns (err: Option<Err>, v: seq<Option<string>>)
      modifies this`connections
      ensures Applied(connections, err, v) == ConnectRun(rpc, old(connections), Refs(nodes))
      ensures old(Valid()) ==> Valid()
    {
      var refs := Refs(nodes);
      if Valid() {
        ConnectRunFacts(rpc, connections, refs);
      }
      v := [];
      var k := 0;
      while k < |nodes|
        invariant 0 <= k <= |nodes|
        invariant ConnectRun(rpc, old(connections), refs) == Resumed(v, ConnectRun(rpc, connections, refs[k..]))
      {
        assert refs[k..][1..] == refs[k + 1..];
        assert refs[k..][0] == nodes[k].Ref();
        ghost var before := connections;
        var reply, _ := Connect(nodes[k], rpc);
        assert ConnectRun(rpc, before, refs[k..]) ==
          (if reply.err.Some? then Applied(connections, reply.err, [])
           else Resumed([reply.result], ConnectRun(rpc, connections, refs[k + 1..])));
        if reply.err.Some? {
          err := reply.err;
          return;
        }
        v := v + [reply.result];
        k := k + 1;
      }
      err := None;
    }

    /** `disconnect(nodes, cb)`: `apply(nodes, 'disconnect', cb)`. */
    method DisconnectAll(nodes: seq<Node>, rpc: RpcCall -> Reply) returns (err: Option<Err>, v: seq<Option<string>>)
      modifies this`connections
      ensures Applied(connections, err, v) == DisconnectRun(rpc, old(connections), Refs(nodes))
      ensures old(Valid()) ==> Valid()
    {
      var refs := Refs(nodes);
      if Valid() {
        DisconnectRunFacts(rpc, connections, refs, set r | r in refs);
      }
      v := [];
      var k := 0;
      while k < |nodes|
        invariant 0 <= k <= |nodes|
        invariant DisconnectRun(rpc, old(connections), refs) == Resumed(v, DisconnectRun(rpc, connections, refs[k..]))
      {
        assert refs[k..][1..] == refs[k + 1..];
        assert refs[k..][0] == nodes[k].Ref();
        var reply, _ := Disconnect(nodes[k], rpc);
        if reply.err.Some? {
          err := reply.err;
          return;
        }
        v := v + [reply.result];
        k := k + 1;
      }
      err := None;
    }
  }

  /** The nodes of `nodes` whose references `conns` records, in the order of `nodes`. */
  function ConnectedIn(conns: seq<string>, nodes: seq<Node>): (r: seq<Node>)
    ensures |r| <= |nodes|
    ensures forall k :: 0 <= k < |r| ==> r[k] in nodes && r[k].Ref() in conns
  {
    if nodes == [] then []
    else (if nodes[0].Ref() in conns then [nodes[0]] else []) + ConnectedIn(conns, nodes[1..])
  }

  /** getConnected keeps exactly the nodes the list records. */
  lemma {:induction false} ConnectedInMembers(conns: seq<string>, nodes: seq<Node>)
    ensures forall n :: n in ConnectedIn(conns, nodes) <==> n in nodes && n.Ref() in conns
    decreases |nodes|
  {
    if nodes != [] {
      ConnectedInMembers(conns, nodes[1..]);
      assert forall n :: n in nodes <==> n == nodes[0] || n in nodes[1..];
    }
  }

  lemma AppendAssoc<T>(a: seq<T>, b: seq<T>, c: seq<T>)
    ensures a + (b + c) == (a + b) + c
  {
  }

  /** A run some of whose items already pushed `done`. */
  function Resumed<S>(done: seq<Option<string>>, rest: Applied<S>): Applied<S>
  {
    Applied(rest.state, rest.err, done + rest.results)
  }

  /** The references of a list of nodes. */
  function Refs(nodes: seq<Node>): (refs: seq<string>)
    ensures |refs| == |nodes| && forall k :: 0 <= k < |nodes| ==> refs[k] == nodes[k].Ref()
  {
    seq(|nodes|, k requires 0 <= k < |nodes| => nodes[k].Ref())
  }
}

/**
 * node.js, the checks and rewrites a `Node` makes on scripts and transactions:
 * `validateScriptPubKey`, and the copy `createDoubleSpendTransaction` makes of a funded
 * transaction with its payment redirected.
 */
module NodeScripts {

  import opened Wrappers
  import opened JsText
  import opened HexCodec
  import opened Transactions

  /** The pay-to-public-key-hash template, checked on its hex text: 25 bytes, OP_DUP
      OP_HASH160 at the front and OP_EQUALVERIFY OP_CHECKSIG at the back. */
  predicate PayToPubKeyHashShape(spk: string)
  {
    |spk| == 50 && spk[..2] == "76" && spk[2..4] == "a9" && spk[46..] == "88ac"
  }

  /** `validateScriptPubKey(spk, cb)`: the message of the first check that fails, or None
      for `cb(null)`. */
  function ValidateScriptPubKey(spk: string): (err: Option<string>)
    ensures err.None? <==> PayToPubKeyHashShape(spk)
    ensures err == Some("scriptpubkey too short") <==> |spk| < 50
    ensures err == Some("scriptpubkey too long") <==> |spk| > 50
  {
    if |spk| < 50 then Some("scriptpubkey too short")
    else if |spk| > 50 then Some("scriptpubkey too long")
    else if Substr(spk, 0, 2) != "76" then Some("OP_DUP not found")
    else if Substr(spk, 2, 2) != "a9" then Some("OP_HASH160 not found")
    else if Substr(spk, 46, 4) != "88ac" then Some("OP_EQUALVERIFY OP_CHECKSIG not found")
    else None
  }

  /** Every standard P2PKH script (OP_DUP OP_HASH160 push-20 hash OP_EQUALVERIFY
      OP_CHECKSIG) is accepted. */
  lemma PayToPubKeyHashAccepted(hash: string)
    requires |hash| == 40
    ensures ValidateScriptPubKey("76a914" + hash + "88ac") == None
  {
    var spk := "76a914" + hash + "88ac";
    assert spk[..2] == "76" && spk[2..4] == "a9" && spk[46..] == "88ac";
  }

  /** The check looks at five bytes only: a script whose push opcode is not 0x14 passes too. */
  lemma PushOpcodeNotChecked()
    ensures ValidateScriptPubKey("76a900" + Zeros(40) + "88ac") == None
  {
    var spk := "76a900" + Zeros(40) + "88ac";
    ZerosLength(40);
    assert spk[..2] == "76" && spk[2..4] == "a9" && spk[46..] == "88ac";
  }

  lemma {:induction false} ZerosLength(k: nat)
    ensures |Zeros(k)| == k
  {
    if k > 0 {
      ZerosLength(k - 1);
    }
  }

  // ---------------------------------------------------------------------------
  // The double-spend copy

  /** The outputs with the first one paying `from` redirected to `to`; None when no output
      pays `from`. */
  function RedirectFirst(vout: seq<TxOut>, from: string, to: string): (r: Option<seq<TxOut>>)
    ensures r.None? <==> forall k :: 0 <= k < |vout| ==> vout[k].scriptPubKey != from
    ensures r.Some? ==> |r.value| == |vout|
  {
    if vout == [] then None
    else if vout[0].scriptPubKey == from then Some([vout[0].(scriptPubKey := to)] + vout[1..])
    else
      match RedirectFirst(vout[1..], from, to)
      case None => None
      case Some(rest) => Some([vout[0]] + rest)
  }

  /** The redirect changes one output, the first that pays `from`, and only its script. */
  lemma {:induction false} RedirectFirstAt(vout: seq<TxOut>, from: string, to: string) returns (k: nat)
    requires RedirectFirst(vout, from, to).Some?
    ensures k < |vout| && vout[k].scriptPubKey == from
    ensures forall j :: 0 <= j < k ==> vout[j].scriptPubKey != from
    ensures RedirectFirst(vout, from, to).value == vout[k := TxOut(vout[k].amount, to)]
    decreases |vout|
  {
    if vout[0].scriptPubKey == from {
      k := 0;
    } else {
      var k' := RedirectFirstAt(vout[1..], from, to);
      k := k' + 1;
      assert [vout[0]] + vout[1..][k' := TxOut(vout[k].amount, to)] == vout[k := TxOut(vout[k].amount, to)];
    }
  }

  /** The `for (const v of tx1.vout)` loop: rewrites the first matching output in place. */
  method RedirectOutput(tx: Transaction, from: string, to: string) returns (found: bool)
    modifies tx`vout
    ensures found <==> RedirectFirst(old(tx.vout), from, to).Some?
    ensures tx.vout == if found then RedirectFirst(old(tx.vout), from, to).value else old(tx.vout)
  {
    var vout := tx.vout;
    var k := 0;
    while k < |vout|
      invariant 0 <= k <= |vout|
      invariant forall j :: 0 <= j < k ==> vout[j].scriptPubKey != from
    {
      if vout[k].scriptPubKey == from {
        var first := RedirectFirstAt(vout, from, to);
        assert first == k;
        tx.vout := vout[k := vout[k].(scriptPubKey := to)];
        return true;
      }
      k := k + 1;
    }
    found := false;
  }

  const NotFound := "internal error -- unable to find scriptPubKey in transaction"

  /** From the funded `rawtx1`: decode it, redirect the output paying `spk0` to `spk1`, and
      encode the copy; `err` is the error createDoubleSpendTransaction reports. */
  method DoubleSpendCopy(rawtx1: string, spk0: string, spk1: string) returns (err: Option<string>, rawtx2: string)
    requires ReadTx(rawtx1).Some?
    ensures var tx := ReadTx(rawtx1).value.value;
      match RedirectFirst(tx.vout, spk0, spk1)
      case None => err == Some(NotFound) && rawtx2 == ""
      case Some(vout) => err == None && rawtx2 == TxText(tx.(vout := vout))
  {
    var tx1 := new Transaction.FromHex(rawtx1);
    var found := RedirectOutput(tx1, spk0, spk1);
    if !found {
      return Some(NotFound), "";
    }
    rawtx2 := tx1.Encode(null);
    err := None;
  }

  /** The copy decodes back to itself: the funded transaction's version, inputs and lock
      time, with its outputs redirected as RedirectFirstAt describes. */
  lemma DoubleSpendDecodes(tx: TxData, spk0: string, spk1: string)
    requires Canonical(tx) && ShortScript(spk1) && RedirectFirst(tx.vout, spk0, spk1).Some?
    ensures var copy := tx.(vout := RedirectFirst(tx.vout, spk0, spk1).value);
      ReadTx(TxText(copy)) == Some(Parsed(copy, ""))
  {
    var copy := tx.(vout := RedirectFirst(tx.vout, spk0, spk1).value);
    RedirectKeepsCanonical(tx, spk0, spk1);
    TxRoundTrip(copy, "");
    assert TxText(copy) + "" == TxText(copy);
  }

  /** Redirecting to a short script keeps a transaction encodable. */
  lemma RedirectKeepsCanonical(tx: TxData, spk0: string, spk1: string)
    requires Canonical(tx) && ShortScript(spk1) && RedirectFirst(tx.vout, spk0, spk1).Some?
    ensures Canonical(tx.(vout := RedirectFirst(tx.vout, spk0, spk1).value))
  {
    var k := RedirectFirstAt(tx.vout, spk0, spk1);
    var vout := RedirectFirst(tx.vout, spk0, spk1).value;
    assert forall j :: 0 <= j < |vout| ==> CanonicalOutput(vout[j]) by {
      forall j | 0 <= j < |vout|
        ensures CanonicalOutput(vout[j])
      {
        if j != k {
          assert vout[j] == tx.vout[j];
        }
      }
    }
  }
}
