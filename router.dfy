/**
  * `src/network/networkhandler.py`: the layer between the node and the application. Every
  * node callback becomes an envelope `(kind, source, dest, data)` for the upstream callback,
  * and the connection events keep `conn_info`, the map from a peer's id to its link.
  */
module Router {
  import opened Wrappers
  import opened Utf8
  import opened Text
  import opened Json
  import opened Network

  /** What `node_callback` passes upstream: `callback(callback_type, source_id, dest_id, data)`. */
  datatype Envelope = Envelope(kind: string, source: string, dest: string, data: Value)

  /** The `callback_type` under which the node reports an event. */
  function KindName(e: NodeEvent): string {
    match e
    case ServerStarted => "server_started"
    case NodeMessage(_, _) => "node_message"
    case OutboundConnected(_) => "outbound_node_connected"
    case OutboundDisconnected(_) => "outbound_node_disconnected"
    case InboundConnected(_) => "inbound_node_connected"
    case InboundDisconnected(_) => "inbound_node_disconnected"
    case RequestToStop => "node_request_to_stop"
    case SendSuccess(_) => "node_send_success"
  }

  /** `"{}".format(port)`: a numeric port is printed in decimal, a textual one as it is. */
  function PortString(p: PortVal): string {
    match p
    case PortNum(n) => IntToString(n)
    case PortText(t) => t
  }

  /** The status line of a connection event: `"{kind}: {own id} {arrow} {peer id} @{host}:{port}"`. */
  function LinkLine(kind: string, ownId: string, arrow: string, l: Link): string {
    kind + ": " + ownId + " " + arrow + " " + l.id + " @" + l.host + ":" + PortString(l.port)
  }

  /** Daemon events are handled but never passed upstream (`daemon_callback`). */
  predicate Daemon(e: NodeEvent) {
    e.SendSuccess?
  }

  /** The link an event is about, if any. */
  function LinkOf(e: NodeEvent): Option<Link> {
    match e
    case NodeMessage(l, _) => Some(l)
    case OutboundConnected(l) => Some(l)
    case OutboundDisconnected(l) => Some(l)
    case InboundConnected(l) => Some(l)
    case InboundDisconnected(l) => Some(l)
    case SendSuccess(l) => Some(l)
    case _ => None
  }

  /**
    * The envelope `node_callback` builds for an event of the node with id `ownId`, listening
    * on `ownHost:ownPort`. Events about a link the peer opened (inbound) name the peer as
    * source; events about a link this node opened (outbound) name it as destination.
    */
  function Route(ownId: string, ownHost: string, ownPort: int, e: NodeEvent): (r: Envelope)
    ensures r.kind == KindName(e)
    ensures e.InboundConnected? || e.InboundDisconnected? || e.NodeMessage? ==>
      r.source == LinkOf(e).value.id && r.dest == ownId
    ensures e.OutboundConnected? || e.OutboundDisconnected? || e.SendSuccess? ==>
      r.source == ownId && r.dest == LinkOf(e).value.id
    ensures e.ServerStarted? || e.RequestToStop? ==> r.source == "sys" && r.dest == ownId
  {
    var kind := KindName(e);
    match e
    case ServerStarted =>
      Envelope(kind, "sys", ownId, VStr(kind + ": " + ownId + " @" + ownHost + ":" + IntToString(ownPort)))
    case OutboundConnected(l) => Envelope(kind, ownId, l.id, VStr(LinkLine(kind, ownId, "<-", l)))
    case OutboundDisconnected(l) => Envelope(kind, ownId, l.id, VStr(LinkLine(kind, ownId, "<#", l)))
    case InboundConnected(l) => Envelope(kind, l.id, ownId, VStr(LinkLine(kind, ownId, "->", l)))
    case InboundDisconnected(l) => Envelope(kind, l.id, ownId, VStr(LinkLine(kind, ownId, "#>", l)))
    case NodeMessage(l, data) => Envelope(kind, l.id, ownId, data)
    case RequestToStop => Envelope(kind, "sys", ownId, VStr("Node " + ownId + " is stopping..."))
    case SendSuccess(l) => Envelope(kind, ownId, l.id, VStr(""))
  }

  /**
    * A received message reaches the application unchanged, attributed to the peer; and
    * the direction convention flips between inbound and outbound links, the same for
    * connecting and disconnecting.
    */
  lemma RouteConventions(ownId: string, ownHost: string, ownPort: int, l: Link, data: Value)
    ensures Route(ownId, ownHost, ownPort, NodeMessage(l, data)).data == data
    ensures var i, o := Route(ownId, ownHost, ownPort, InboundConnected(l)), Route(ownId, ownHost, ownPort, OutboundConnected(l));
      i.source == o.dest && i.dest == o.source
    ensures var c, d := Route(ownId, ownHost, ownPort, InboundConnected(l)), Route(ownId, ownHost, ownPort, InboundDisconnected(l));
      c.source == d.source && c.dest == d.dest
    ensures var c, d := Route(ownId, ownHost, ownPort, OutboundConnected(l)), Route(ownId, ownHost, ownPort, OutboundDisconnected(l));
      c.source == d.source && c.dest == d.dest
  {
  }

  /** `conn_info` after the registry part of `node_callback` handled `e`. */
  function Registered(m: map<string, Link>, e: NodeEvent): (r: map<string, Link>)
    ensures e.InboundConnected? || e.OutboundConnected? ==>
      LinkOf(e).value.id in r && r[LinkOf(e).value.id] == LinkOf(e).value
    ensures e.InboundDisconnected? || e.OutboundDisconnected? ==> LinkOf(e).value.id !in r
    ensures forall k | LinkOf(e) == None || k != LinkOf(e).value.id :: (k in r <==> k in m) && (k in r ==> r[k] == m[k])
    ensures r.Keys <= m.Keys + (if LinkOf(e).Some? then {LinkOf(e).value.id} else {})
  {
    match e
    case OutboundConnected(l) => m[l.id := l]
    case InboundConnected(l) => m[l.id := l]
    case OutboundDisconnected(l) => m - {l.id}
    case InboundDisconnected(l) => m - {l.id}
    case _ => m
  }

  /** Every id in the registry maps to a link of that peer id. */
  predicate Consistent(m: map<string, Link>) {
    forall k | k in m :: m[k].id == k
  }

  /** Handling an event keeps the registry consistent. */
  lemma RegisteredConsistent(m: map<string, Link>, e: NodeEvent)
    requires Consistent(m)
    ensures Consistent(Registered(m, e))
  {
  }

  /**
    * Two peers with the same id: the later connection overwrites the entry, and when the
    * earlier one drops, the entry of the later one goes with it.
    */
  lemma SameIdShadows(m: map<string, Link>, a: Link, b: Link)
    requires a.id == b.id
    ensures var after := Registered(Registered(Registered(m, InboundConnected(a)), OutboundConnected(b)), InboundDisconnected(a));
      a.id !in after
    ensures Registered(Registered(m, InboundConnected(a)), OutboundConnected(b))[a.id] == b
  {
  }

  /** What the upstream callback receives for the events `es`, in order. */
  function Forward(ownId: string, ownHost: string, ownPort: int, es: seq<NodeEvent>): (r: seq<Envelope>)
    ensures |r| <= |es|
  {
    if es == [] then []
    else
      var last := es[|es| - 1];
      Forward(ownId, ownHost, ownPort, es[..|es| - 1]) +
        (if Daemon(last) then [] else [Route(ownId, ownHost, ownPort, last)])
  }

  /** How many of `es` are daemon events. */
  function DaemonCount(es: seq<NodeEvent>): nat {
    if es == [] then 0 else DaemonCount(es[..|es| - 1]) + (if Daemon(es[|es| - 1]) then 1 else 0)
  }

  /**
    * Every event but the daemon one is forwarded exactly once: the upstream sees one
    * envelope per non-daemon event, and no envelope of the daemon kind.
    */
  lemma {:induction false} ForwardOnce(ownId: string, ownHost: string, ownPort: int, es: seq<NodeEvent>)
    ensures |Forward(ownId, ownHost, ownPort, es)| == |es| - DaemonCount(es)
    ensures forall i | 0 <= i < |Forward(ownId, ownHost, ownPort, es)| ::
      Forward(ownId, ownHost, ownPort, es)[i].kind != "node_send_success"
  {
    var f := e => Route(ownId, ownHost, ownPort, e);
    var p := (env: Envelope) => env.kind != "node_send_success";
    ForwardIsKept(ownId, ownHost, ownPort, es);
    KeptLength(es, f);
    forall i | 0 <= i < |es| && !Daemon(es[i])
      ensures p(f(es[i]))
    {
      OtherKind(es[i]);
    }
    KeptAll(es, f, p);
  }

  /** Only the daemon event is named `node_send_success`. */
  lemma OtherKind(e: NodeEvent)
    requires !Daemon(e)
    ensures KindName(e) != "node_send_success"
  {
    var kind := KindName(e);
    assert kind[0] != 'n' || kind[5] != 's';
  }

  /**
    * The envelope of each non-daemon event of `es` sits in `r` after those of the
    * non-daemon events before it.
    */
  predicate InOrder(ownId: string, ownHost: string, ownPort: int, es: seq<NodeEvent>, r: seq<Envelope>) {
    forall j | 0 <= j < |es| && !Daemon(es[j]) ::
      var k := j - DaemonCount(es[..j]);
      0 <= k < |r| && r[k] == Route(ownId, ownHost, ownPort, es[j])
  }

  /** The envelopes keep the order of the events, each the envelope of its event. */
  lemma ForwardInOrder(ownId: string, ownHost: string, ownPort: int, es: seq<NodeEvent>)
    ensures InOrder(ownId, ownHost, ownPort, es, Forward(ownId, ownHost, ownPort, es))
  {
    forall j | 0 <= j < |es| && !Daemon(es[j])
      ensures var k := j - DaemonCount(es[..j]);
        0 <= k < |Forward(ownId, ownHost, ownPort, es)| &&
        Forward(ownId, ownHost, ownPort, es)[k] == Route(ownId, ownHost, ownPort, es[j])
    {
      ForwardAt(ownId, ownHost, ownPort, es, j);
    }
  }

  /** Where the envelope of the non-daemon event at `j` lands. */
  lemma ForwardAt(ownId: string, ownHost: string, ownPort: int, es: seq<NodeEvent>, j: nat)
    requires j < |es| && !Daemon(es[j])
    ensures var k := j - DaemonCount(es[..j]);
      0 <= k < |Forward(ownId, ownHost, ownPort, es)| &&
      Forward(ownId, ownHost, ownPort, es)[k] == Route(ownId, ownHost, ownPort, es[j])
  {
    var f := e => Route(ownId, ownHost, ownPort, e);
    ForwardIsKept(ownId, ownHost, ownPort, es);
    KeptAt(es, f, j);
  }

  /** The non-daemon events of `es`, each mapped by `f`, in order. */
  function Kept<T>(es: seq<NodeEvent>, f: NodeEvent -> T): seq<T> {
    if es == [] then [] else Kept(es[..|es| - 1], f) + (if Daemon(es[|es| - 1]) then [] else [f(es[|es| - 1])])
  }

  /** `Forward` keeps the non-daemon events, each turned into its envelope. */
  lemma {:induction false} ForwardIsKept(ownId: string, ownHost: string, ownPort: int, es: seq<NodeEvent>)
    ensures Forward(ownId, ownHost, ownPort, es) == Kept(es, e => Route(ownId, ownHost, ownPort, e))
  {
    if es != [] {
      ForwardIsKept(ownId, ownHost, ownPort, es[..|es| - 1]);
    }
  }

  /** The image of the non-daemon event at `j` sits after those of the non-daemon events before it. */
  lemma {:induction false} KeptAt<T>(es: seq<NodeEvent>, f: NodeEvent -> T, j: nat)
    requires j < |es| && !Daemon(es[j])
    ensures var k := j - DaemonCount(es[..j]);
      0 <= k < |Kept(es, f)| && Kept(es, f)[k] == f(es[j])
  {
    var init := es[..|es| - 1];
    KeptLength(init, f);
    if j < |init| {
      KeptAt(init, f, j);
      assert es[..j] == init[..j] && es[j] == init[j];
    } else {
      assert es[..j] == init;
    }
  }

  /** Whatever holds of the image of every non-daemon event holds of every element kept. */
  lemma {:induction false} KeptAll<T>(es: seq<NodeEvent>, f: NodeEvent -> T, p: T -> bool)
    requires forall i | 0 <= i < |es| && !Daemon(es[i]) :: p(f(es[i]))
    ensures forall i | 0 <= i < |Kept(es, f)| :: p(Kept(es, f)[i])
  {
    if es != [] {
      var init := es[..|es| - 1];
      assert forall i | 0 <= i < |init| :: init[i] == es[i];
      KeptAll(init, f, p);
    }
  }

  /** One image per non-daemon event. */
  lemma {:induction false} KeptLength<T>(es: seq<NodeEvent>, f: NodeEvent -> T)
    ensures |Kept(es, f)| == |es| - DaemonCount(es)
  {
    if es != [] {
      KeptLength(es[..|es| - 1], f);
    }
  }

  /** `conn_info` after handling `es` in order. */
  function RegisteredAll(m: map<string, Link>, es: seq<NodeEvent>): map<string, Link> {
    if es == [] then m else Registered(RegisteredAll(m, es[..|es| - 1]), es[|es| - 1])
  }

  lemma {:induction false} RegisteredAllConsistent(m: map<string, Link>, es: seq<NodeEvent>)
    requires Consistent(m)
    ensures Consistent(RegisteredAll(m, es))
  {
    if es != [] {
      RegisteredAllConsistent(m, es[..|es| - 1]);
      RegisteredConsistent(RegisteredAll(m, es[..|es| - 1]), es[|es| - 1]);
    }
  }

  /**
    * A link's receive buffer, wire and stopped flag went from the first three values to
    * the last three exactly as one `send` of `data` does when `sent`, and not at all otherwise.
    */
  predicate SendStep(b0: seq<byte>, w0: seq<byte>, s0: bool, b1: seq<byte>, w1: seq<byte>, s1: bool,
                      sent: bool, data: Value, codec: JsonCodec, delivered: bool)
    requires JsonLaws(codec)
  {
    b1 == b0 &&
    if sent then w1 == w0 + Written(codec, data, delivered) && s1 == (s0 || Halts(codec, data, delivered))
    else w1 == w0 && s1 == s0
  }

  /** Two steps of which at most one sends make one step that sends if either does. */
  lemma SendStepsCompose(b0: seq<byte>, w0: seq<byte>, s0: bool, b1: seq<byte>, w1: seq<byte>, s1: bool,
                       b2: seq<byte>, w2: seq<byte>, s2: bool, first: bool, second: bool,
                       data: Value, codec: JsonCodec, delivered: bool)
    requires JsonLaws(codec) && !(first && second)
    requires SendStep(b0, w0, s0, b1, w1, s1, first, data, codec, delivered)
    requires SendStep(b1, w1, s1, b2, w2, s2, second, data, codec, delivered)
    ensures SendStep(b0, w0, s0, b2, w2, s2, first || second, data, codec, delivered)
  {
    if !first && !second {
    } else if first {
      assert w2 == w1;
    }
  }

  /** `NetworkHandler` */
  class Handler {
    const id: string
    const host: string
    const port: int
    const node: Node
    const listening: bool              // an upstream callback was given
    var connInfo: map<string, Link>
    var forwarded: seq<Envelope>       // the upstream callback's calls, in order
    var stopping: bool                 // the termination flag

    ghost predicate Valid()
      reads this`connInfo
    {
      Consistent(connInfo)
    }

    /**
      * `__init__`: the node is created with this handler's id and the default cap of one
      * inbound connection; its `server_started` report reaches this handler at once.
      */
    constructor (host: string, port: int, listening: bool, id: Option<string>, generatedId: string)
      ensures this.host == host && this.port == port && this.listening == listening
      ensures this.id == (if id.Some? then id.value else generatedId)
      ensures fresh(node) && node.id == this.id && node.host == host && node.port == port
      ensures node.maxConnection == 1 && node.Valid() && node.inbound == {} && node.outbound == {}
      ensures node.events == [ServerStarted] && node.targets == []
      ensures connInfo == map[] && !stopping && Valid()
      ensures forwarded == if listening then [Route(this.id, host, port, ServerStarted)] else []
    {
      this.host := host;
      this.port := port;
      this.listening := listening;
      var ownId := if id.Some? then id.value else generatedId;
      this.id := ownId;
      node := new Node(host, port, 1, Some(ownId), ownId);
      connInfo := map[];
      forwarded := [];
      stopping := false;
      new;
      NodeCallback(ServerStarted);
    }

    /** `node_callback`: keep the registry, pass the envelope upstream unless it is a daemon event. */
    method NodeCallback(e: NodeEvent)
      requires Valid()
      modifies this`connInfo, this`forwarded
      ensures Valid()
      ensures connInfo == Registered(old(connInfo), e)
      ensures forwarded == old(forwarded) + if listening && !Daemon(e) then [Route(id, host, port, e)] else []
    {
      match e {
        case OutboundConnected(l) => connInfo := connInfo[l.id := l];
        case InboundConnected(l) => connInfo := connInfo[l.id := l];
        case OutboundDisconnected(l) => connInfo := connInfo - {l.id};
        case InboundDisconnected(l) => connInfo := connInfo - {l.id};
        case _ =>
      }
      if listening && !Daemon(e) {
        forwarded := forwarded + [Route(id, host, port, e)];
      }
    }

    /** The node's callbacks for `es`, made one after the other. */
    method Relay(es: seq<NodeEvent>)
      requires Valid()
      modifies this`connInfo, this`forwarded
      ensures Valid()
      ensures connInfo == RegisteredAll(old(connInfo), es)
      ensures forwarded == old(forwarded) + if listening then Forward(id, host, port, es) else []
    {
      var i := 0;
      while i < |es|
        invariant i <= |es| && Valid()
        invariant connInfo == RegisteredAll(old(connInfo), es[..i])
        invariant forwarded == old(forwarded) + if listening then Forward(id, host, port, es[..i]) else []
      {
        assert es[..i + 1][..i] == es[..i];
        NodeCallback(es[i]);
        i := i + 1;
      }
      assert es[..i] == es;
    }

    /**
      * What `send` did to `l` if it was called on it (`sent`), and that nothing else changed.
      */
    twostate predicate Delivery(l: Link, sent: bool, data: Value, codec: JsonCodec, delivered: bool)
      requires JsonLaws(codec)
      reads l
    {
      SendStep(old(l.buffer), old(l.wire), old(l.stopped), l.buffer, l.wire, l.stopped, sent, data, codec, delivered)
    }

    /** `send_to_node_with_id`: send through the registered link of `destId`; an unknown id sends nothing. */
    method SendToNodeWithId(destId: string, data: Value, codec: JsonCodec, delivered: bool)
      requires Valid() && JsonLaws(codec)
      modifies connInfo.Values
      ensures forall k | k in connInfo :: Delivery(connInfo[k], k == destId && connInfo[k] in node.AllNodes(), data, codec, delivered)
      ensures forall k | k in connInfo && k != destId :: unchanged(connInfo[k])
    {
      if destId in connInfo {
        node.SendToNode(connInfo[destId], data, codec, delivered);
      }
    }

    /**
      * `send_to_all_nodes`: one send per registered id; ids are distinct peers, so every
      * link the node still holds gets the payload exactly once. `delivered` says, per id,
      * whether that `sendall` succeeds.
      */
    method SendToAllNodes(data: Value, codec: JsonCodec, delivered: string -> bool)
      requires Valid() && JsonLaws(codec)
      modifies connInfo.Values
      ensures forall k | k in connInfo :: Delivery(connInfo[k], connInfo[k] in node.AllNodes(), data, codec, delivered(k))
    {
      var todo := connInfo.Keys;
      ghost var held := node.AllNodes();
      ghost var start := Snapshot();
      while todo != {}
        invariant todo <= connInfo.Keys && held == node.AllNodes()
        invariant SentSince(start, todo, held, data, codec, delivered)
        decreases |todo|
      {
        var k :| k in todo;
        SendOne(k, todo, start, held, data, codec, delivered);
        todo := todo - {k};
      }
    }

    /** The receive buffer, wire and stopped flag of every registered link. */
    ghost function Snapshot(): map<string, (seq<byte>, seq<byte>, bool)>
      reads this`connInfo, connInfo.Values
    {
      map k | k in connInfo :: (connInfo[k].buffer, connInfo[k].wire, connInfo[k].stopped)
    }

    /** Since `start`, every link held in `held` and registered under an id out of `todo` got one send. */
    ghost predicate SentSince(start: map<string, (seq<byte>, seq<byte>, bool)>, todo: set<string>, held: set<Link>,
                              data: Value, codec: JsonCodec, delivered: string -> bool)
      requires JsonLaws(codec)
      reads this`connInfo, connInfo.Values
    {
      forall k | k in connInfo ::
        k in start &&
        SendStep(start[k].0, start[k].1, start[k].2, connInfo[k].buffer, connInfo[k].wire, connInfo[k].stopped,
                 k !in todo && connInfo[k] in held, data, codec, delivered(k))
    }

    /** One round of `send_to_all_nodes`: the send to the link registered under `k`. */
    method SendOne(k: string, todo: set<string>, ghost start: map<string, (seq<byte>, seq<byte>, bool)>, ghost held: set<Link>,
                   data: Value, codec: JsonCodec, delivered: string -> bool)
      requires Valid() && JsonLaws(codec) && k in todo && held == node.AllNodes()
      requires SentSince(start, todo, held, data, codec, delivered)
      modifies connInfo.Values
      ensures SentSince(start, todo - {k}, held, data, codec, delivered)
    {
      SendToNodeWithId(k, data, codec, delivered(k));
      forall k' | k' in connInfo
        ensures k' in start && SendStep(start[k'].0, start[k'].1, start[k'].2, connInfo[k'].buffer, connInfo[k'].wire, connInfo[k'].stopped,
                                        k' !in todo - {k} && connInfo[k'] in held, data, codec, delivered(k'))
      {
        var l := connInfo[k'];
        if k' != k {
          assert unchanged(l);
        }
        SendStepsCompose(start[k'].0, start[k'].1, start[k'].2, old(l.buffer), old(l.wire), old(l.stopped),
                         l.buffer, l.wire, l.stopped,
                         k' !in todo && l in held, k' == k && l in held, data, codec, delivered(k'));
      }
    }

    /**
      * `connect_to_node`: `connect_with_node` with reconnection registered; a new outbound
      * link is reported back at once and lands in the registry under the peer's id.
      */
    method ConnectToNode(host: string, port: int, dial: Dial) returns (made: Option<Link>)
      requires Valid() && node.Valid()
      modifies node`outbound, node`events, node`targets, this`connInfo, this`forwarded
      ensures Valid() && node.Valid()
      ensures made.Some? <==> !old(node.Connected(host, port)) && node.Redials(host, port, dial)
      ensures made.None? ==> node.outbound == old(node.outbound) && node.events == old(node.events) && node.targets == old(node.targets)
      ensures made.Some? ==> (
        fresh(made.value) && made.value.owner == node && made.value.host == host && made.value.port == PortNum(port) &&
        made.value.buffer == [] && !made.value.stopped && made.value.wire == [] &&
        node.outbound == old(node.outbound) + {made.value} &&
        node.events == old(node.events) + [OutboundConnected(made.value)] &&
        node.targets == old(node.targets) + [Target(host, port, 0)])
      ensures made.None? ==> connInfo == old(connInfo) && forwarded == old(forwarded)
      ensures made.Some? ==>
        made.value in node.outbound && made.value.id in connInfo && connInfo[made.value.id] == made.value &&
        connInfo == old(connInfo)[made.value.id := made.value] &&
        forwarded == old(forwarded) + if listening then [Route(id, this.host, this.port, OutboundConnected(made.value))] else []
    {
      var _, _, m := node.ConnectWithNode(host, port, true, dial);
      if m.Some? {
        NodeCallback(OutboundConnected(m.value));
      }
      made := m;
    }

    /** `stop`: raise the termination flag. */
    method Stop()
      modifies this`stopping
      ensures stopping
    {
      stopping := true;
    }

    /** The end of `run`: once the flag is raised, stop the node; its stop report is relayed. */
    method Finish()
      requires stopping && Valid()
      modifies node`events, node`stopping, this`forwarded, this`connInfo
      ensures Valid() && connInfo == old(connInfo)
      ensures node.stopping && node.events == old(node.events) + [RequestToStop]
      ensures forwarded == old(forwarded) + if listening then [Route(id, host, port, RequestToStop)] else []
    {
      node.Stop();
      NodeCallback(RequestToStop);
    }
  }
}
