/** The transmission bounds are attained: a packet that is sent 32 times, and a ping sent 31 times whose
    reply is sent 32 times. */
module WorstCase {
  import opened Options
  import opened Numerals
  import opened Address
  import opened RingDistance
  import opened Entries
  import opened RouterStates
  import opened NextHops
  import opened RunsExist
  import opened Bounces
  import opened Packets
  import opened Nodes
  import N = Network

  ghost predicate SendsWith(nd: NodeSpec, dst: Addr, to: NetAddr, m: Memory)
    requires NodeOk(nd) && |dst| == ADDR_LEN
  {
    MemoryOk(m) ==> NextHop(nd.router, dst, m.beyond).isSet && NextHop(nd.router, dst, m.beyond).net == to
  }

  /** The node forwards packets for dst to the network address to, whatever memory it finds. */
  ghost predicate Sends(nd: NodeSpec, dst: Addr, to: NetAddr) {
    NodeOk(nd) && |dst| == ADDR_LEN && forall m :: SendsWith(nd, dst, to, m)
  }

  ghost predicate KeepsWith(nd: NodeSpec, dst: Addr, m: Memory)
    requires NodeOk(nd) && |dst| == ADDR_LEN
  {
    MemoryOk(m) ==> !NextHop(nd.router, dst, m.beyond).isSet
  }

  ghost predicate Keeps(nd: NodeSpec, dst: Addr) {
    NodeOk(nd) && |dst| == ADDR_LEN && forall m :: KeepsWith(nd, dst, m)
  }

  /** A packet small enough to be received. */
  ghost predicate Sound(p: Pkt) {
    Legal(p) && |p.data| <= MAX_LEN && p.typ < TYPES
  }

  /** p with j units of its time to live spent. */
  function Spent(p: Pkt, j: nat): (q: Pkt)
    requires Sound(p) && j <= p.ttl
    ensures Sound(q) && q.ttl == p.ttl - j && q.dst == p.dst
  {
    p.(ttl := p.ttl - j)
  }

  lemma Relays(c: Scheme, nd: NodeSpec, m: Memory, p: Pkt, to: NetAddr)
    requires c.Correct() && MemoryOk(m) && Sends(nd, p.dst, to) && !nd.checkSign && Sound(p) && p.ttl > 0
    ensures Ready(c, nd, m)
    ensures Forward(c, nd, m, p) == Effects([Datagram(to, Encode(Spent(p, 1)))], [])
    ensures Receive(c, nd, m, Encode(p)) == Forward(c, nd, m, p)
  {
    assert SendsWith(nd, p.dst, to, m);
    WireRoundTripIff(p);
  }

  //// Runs, event by event

  /** A run as it is built up; net is the network at its end. */
  datatype History = Start(net: N.Net) | Then(before: History, ev: N.Event, net: N.Net)

  ghost predicate Possible(c: Scheme, h: History) {
    && N.NetOk(c, h.net)
    && (h.Then? ==> Possible(c, h.before) && N.Enabled(h.before.net, h.ev) && h.net == N.Next(c, h.before.net, h.ev))
  }

  function First(h: History): N.Net {
    if h.Start? then h.net else First(h.before)
  }

  function Injected(h: History): nat {
    if h.Start? then 0 else Injected(h.before) + N.InjectionCost(h.ev)
  }

  lemma RunGoesOn(c: Scheme, nets: seq<N.Net>, evs: seq<N.Event>, ev: N.Event)
    requires N.Run(c, nets, evs) && N.NetOk(c, nets[|evs|]) && N.Enabled(nets[|evs|], ev)
    ensures N.Run(c, nets + [N.Next(c, nets[|evs|], ev)], evs + [ev])
  {
    var nets', evs' := nets + [N.Next(c, nets[|evs|], ev)], evs + [ev];
    forall i | 0 <= i < |evs'|
      ensures N.NetOk(c, nets'[i]) && N.Enabled(nets'[i], evs'[i]) && nets'[i + 1] == N.Next(c, nets'[i], evs'[i])
    {
      if i < |evs| {
        assert evs'[i] == evs[i] && nets'[i] == nets[i] && nets'[i + 1] == nets[i + 1];
      }
    }
  }

  /** Such a history is a run of the network. */
  lemma {:induction false} AsRun(c: Scheme, h: History) returns (nets: seq<N.Net>, evs: seq<N.Event>)
    requires Possible(c, h)
    ensures N.Run(c, nets, evs) && nets[0] == First(h) && nets[|evs|] == h.net
    ensures N.Injections(evs) == Injected(h)
  {
    if h.Start? {
      nets, evs := [h.net], [];
    } else {
      var nets0, evs0 := AsRun(c, h.before);
      nets, evs := nets0 + [h.net], evs0 + [h.ev];
      RunGoesOn(c, nets0, evs0, h.ev);
      assert evs[..|evs0|] == evs0;
    }
  }

  lemma StaysOk(c: Scheme, net: N.Net, ev: N.Event)
    requires N.NetOk(c, net) && N.Enabled(net, ev)
    ensures N.NetOk(c, N.Next(c, net, ev))
  {
  }

  /** h' goes on from where h began, without new injections. */
  ghost predicate Follows(c: Scheme, h: History, h': History) {
    Possible(c, h') && First(h') == First(h) && Injected(h') == Injected(h)
  }

  lemma Continue(c: Scheme, h: History, ev: N.Event) returns (h': History)
    requires Possible(c, h) && N.Enabled(h.net, ev)
    ensures h' == Then(h, ev, N.Next(c, h.net, ev)) && Possible(c, h')
    ensures First(h') == First(h) && Injected(h') == Injected(h) + N.InjectionCost(ev)
  {
    StaysOk(c, h.net, ev);
    h' := Then(h, ev, N.Next(c, h.net, ev));
  }

  //// A run that bounces one packet

  /** p is on its way to x, and x and y send packets for its destination to each other. */
  ghost predicate Shuttle(net: N.Net, x: NetAddr, y: NetAddr, p: Pkt) {
    && x in net.nodes && y in net.nodes && !net.nodes[x].checkSign && !net.nodes[y].checkSign && Sound(p)
    && Sends(net.nodes[x], p.dst, y) && Sends(net.nodes[y], p.dst, x)
    && net.flight == [Datagram(x, Encode(p))]
  }

  /** After j arrivals the packet is on its way to x or y, j units of its time to live spent. */
  function Shuttled(net: N.Net, x: NetAddr, y: NetAddr, p: Pkt, j: nat): N.Net
    requires Sound(p) && j <= p.ttl
  {
    net.(flight := [Datagram(if j % 2 == 0 then x else y, Encode(Spent(p, j)))], sent := net.sent + j)
  }

  /** The only datagram in flight arrives and causes another one. */
  lemma ArrivesAlone(c: Scheme, net: N.Net, d: Datagram, m: Memory, out: Datagram)
    requires N.NetOk(c, net) && MemoryOk(m) && net.flight == [d] && d.to in net.nodes
    requires Receive(c, net.nodes[d.to], m, d.bytes) == Effects([out], [])
    ensures N.Enabled(net, N.Arrive(0, m))
    ensures N.Next(c, net, N.Arrive(0, m)) == net.(flight := [out], sent := net.sent + 1)
  {
    assert N.Without(net.flight, 0) == [];
  }

  lemma OneArrival(c: Scheme, net: N.Net, x: NetAddr, y: NetAddr, p: Pkt, m: Memory)
    requires N.NetOk(c, net) && Shuttle(net, x, y, p) && p.ttl > 0 && MemoryOk(m)
    ensures N.Enabled(net, N.Arrive(0, m)) && N.Next(c, net, N.Arrive(0, m)) == Shuttled(net, x, y, p, 1)
    ensures Shuttle(Shuttled(net, x, y, p, 1), y, x, Spent(p, 1))
  {
    Relays(c, net.nodes[x], m, p, y);
    ArrivesAlone(c, net, Datagram(x, Encode(p)), m, Datagram(y, Encode(Spent(p, 1))));
  }

  lemma ShuttledNone(net: N.Net, x: NetAddr, y: NetAddr, p: Pkt)
    requires Sound(p) && net.flight == [Datagram(x, Encode(p))]
    ensures Shuttled(net, x, y, p, 0) == net
  {
  }

  lemma ShuttledOnce(net: N.Net, x: NetAddr, y: NetAddr, p: Pkt, j: nat)
    requires Sound(p) && 0 < j <= p.ttl
    ensures Shuttled(Shuttled(net, x, y, p, 1), y, x, Spent(p, 1), j - 1) == Shuttled(net, x, y, p, j)
  {
    assert (j - 1) % 2 == 0 <==> j % 2 != 0;
    assert Spent(Spent(p, 1), j - 1) == Spent(p, j);
  }

  lemma OneMoreArrival(c: Scheme, h: History, x: NetAddr, y: NetAddr, p: Pkt, m: Memory) returns (h': History)
    requires Possible(c, h) && Shuttle(h.net, x, y, p) && p.ttl > 0 && MemoryOk(m)
    ensures Follows(c, h, h') && h'.net == Shuttled(h.net, x, y, p, 1) && Shuttle(h'.net, y, x, Spent(p, 1))
  {
    OneArrival(c, h.net, x, y, p, m);
    h' := Continue(c, h, N.Arrive(0, m));
  }

  lemma {:induction false} Shuttles(c: Scheme, h: History, x: NetAddr, y: NetAddr, p: Pkt, m: Memory, j: nat)
    returns (h': History)
    requires Possible(c, h) && Shuttle(h.net, x, y, p) && j <= p.ttl && MemoryOk(m)
    ensures Follows(c, h, h') && h'.net == Shuttled(h.net, x, y, p, j)
    decreases j
  {
    if j == 0 {
      h' := h;
      ShuttledNone(h.net, x, y, p);
    } else {
      var next := OneMoreArrival(c, h, x, y, p, m);
      h' := Shuttles(c, next, y, x, Spent(p, 1), m, j - 1);
      ShuttledOnce(h.net, x, y, p, j);
    }
  }

  ghost predicate Fresh(c: Scheme, net: N.Net) {
    N.NetOk(c, net) && net.flight == [] && net.sent == 0
  }

  /** What an unsigned packet is when it has just left the node that sends it. */
  function Launched(nd: NodeSpec, dst: Addr, typ: byte): (p: Pkt)
    requires |nd.self| == |dst| == ADDR_LEN && typ < TYPES
    ensures Sound(p) && p.ttl == 31 && p.dst == dst && p.src == nd.self && p.typ == typ && p.data == []
  {
    Packed(dst, nd.self, typ, []).(ttl := 31)
  }

  lemma Launch(c: Scheme, net: N.Net, at: NetAddr, m: Memory, dst: Addr, typ: byte, to: NetAddr) returns (h: History)
    requires Fresh(c, net) && at in net.nodes && MemoryOk(m) && typ < TYPES
    requires net.nodes[at].key == None && !net.nodes[at].checkSign && Sends(net.nodes[at], dst, to)
    ensures Possible(c, h) && First(h) == net && Injected(h) == if typ == TYPE_PING then 63 else 32
    ensures h.net.nodes == net.nodes && h.net.sent == 1
    ensures h.net.flight == [Datagram(to, Encode(Launched(net.nodes[at], dst, typ)))]
  {
    Relays(c, net.nodes[at], m, Outgoing(c, net.nodes[at], dst, typ, []), to);
    h := Continue(c, Start(net), N.Inject(at, m, dst, typ, []));
  }

  //// The nodes

  const X: NetAddr := Endpoint(1)
  const Y: NetAddr := Endpoint(2)
  const A: NetAddr := Endpoint(3)

  /** An unsigned node with the given router. */
  function Plain(s: State): NodeSpec {
    NodeSpec(s.self.addr, None, false, false, s)
  }

  lemma TopsApart(a: byte, b: byte)
    requires b - 128 < a as int < b + 128 && a != b
    ensures DistNum(Top(a, ADDR_LEN), Top(b, ADDR_LEN)) > 0
  {
    TopDistance(a, b, ADDR_LEN);
    RingSplits(ADDR_LEN - 1);
    var p := Ring(ADDR_LEN - 1);
    if a < b {
      Scale(1, b - a, p);
    } else {
      Scale(1, a - b, p);
    }
  }

  /** A router at a00.. that has added b00.. at the network address to. */
  lemma Knowing(a: byte, b: byte, to: NetAddr, k: nat) returns (s: State)
    requires 0 < a && b - 128 < a as int < b + 128 && a != b && k > 0
    ensures OneLeaf(Top(a, ADDR_LEN), Unspecified, k, Add(Top(b, ADDR_LEN), to), s)
    ensures Sends(Plain(s), Top(b, ADDR_LEN), to) && s.self.addr == Top(a, ADDR_LEN)
  {
    var self, op := Top(a, ADDR_LEN), Add(Top(b, ADDR_LEN), to);
    assert self[0] != 0 && self[0] != op.addr[0];
    s := OneAdd(self, Unspecified, k, op);
    AfterOneAdd(self, Unspecified, k, op, s);
    TopsApart(a, b);
    forall m: Memory ensures SendsWith(Plain(s), op.addr, to, m) {
      if MemoryOk(m) {
        KnownIsReached(self, Unspecified, k, op, s, OnRange(s, op.addr, m.beyond));
      }
    }
  }

  /** 2000.., which knows 4000.., keeps what is sent to 1000... */
  lemma KeepsLow(k: nat, s: State)
    requires OneLeaf(Top(0x20, ADDR_LEN), Unspecified, k, Add(Top(0x40, ADDR_LEN), Y), s)
    ensures Keeps(Plain(s), Top(0x10, ADDR_LEN))
  {
    var self, op, dst := Top(0x20, ADDR_LEN), Add(Top(0x40, ADDR_LEN), Y), Top(0x10, ADDR_LEN);
    TopLevel(0x20, 0x10, ADDR_LEN);
    TopLevel(0x40, 0x10, ADDR_LEN);
    TopDistance(0x20, 0x10, ADDR_LEN);
    TopDistance(0x40, 0x10, ADDR_LEN);
    PowPositive(256, ADDR_LEN - 1);
    OnlyLeafHopIff(self, Unspecified, k, op, s, dst);
    OnlyTableHopIff(self, Unspecified, k, op, s, dst);
  }

  //// The bounds are met

  /** One user packet, 32 transmissions: what `TransmissionsBounded` allows it. */
  lemma PacketBoundAttained(c: Scheme, m: Memory, k: nat) returns (nets: seq<N.Net>, evs: seq<N.Event>)
    requires c.Correct() && MemoryOk(m) && k > 0
    ensures N.Run(c, nets, evs) && Fresh(c, nets[0])
    ensures nets[|evs|].sent == N.Injections(evs) == 32
  {
    var dst := Top(0x10, ADDR_LEN);
    var sx := Knowing(0x20, 0x10, Y, k);
    var sy := Knowing(0x30, 0x10, X, k);
    var net := N.Net(map[X := Plain(sx), Y := Plain(sy)], [], 0, multiset{}, []);
    var h := Launch(c, net, X, m, dst, TYPE_USER, Y);
    h := Shuttles(c, h, Y, X, Launched(Plain(sx), dst, TYPE_USER), m, 31);
    nets, evs := AsRun(c, h);
  }

  /** The three nodes of the ping's run. */
  ghost predicate Three(nodes: map<NetAddr, NodeSpec>, sa: State, sx: State, sy: State) {
    && nodes.Keys == {X, Y, A} && nodes[A] == Plain(sa) && nodes[X] == Plain(sx) && nodes[Y] == Plain(sy)
    && NodeOk(Plain(sa)) && NodeOk(Plain(sx)) && NodeOk(Plain(sy))
  }

  lemma FreshThree(c: Scheme, nodes: map<NetAddr, NodeSpec>, sa: State, sx: State, sy: State) returns (net: N.Net)
    requires c.Correct() && Three(nodes, sa, sx, sy)
    ensures Fresh(c, net) && net.nodes == nodes && A in net.nodes && net.nodes[A] == Plain(sa)
  {
    net := N.Net(nodes, [], 0, multiset{}, []);
    forall a | a in nodes ensures NodeOk(nodes[a]) {
      assert a == A || a == X || a == Y;
    }
  }

  /** A ping from a to 1000.. is sent to and fro between x and y until only one unit of its time to live
      is left. */
  lemma PingTravels(c: Scheme, m: Memory, nodes: map<NetAddr, NodeSpec>, sa: State, sx: State, sy: State)
    returns (h: History, p: Pkt)
    requires c.Correct() && MemoryOk(m) && Three(nodes, sa, sx, sy)
    requires Sends(Plain(sa), Top(0x10, ADDR_LEN), X)
    requires Sends(Plain(sx), Top(0x10, ADDR_LEN), Y) && Sends(Plain(sy), Top(0x10, ADDR_LEN), X)
    ensures Possible(c, h) && Fresh(c, First(h)) && Injected(h) == 63 && h.net.nodes == nodes
    ensures Sound(p) && p.typ == TYPE_PING && p.ttl == 1
    ensures p.src == sa.self.addr && p.dst == Top(0x10, ADDR_LEN)
    ensures h.net.flight == [Datagram(X, Encode(p))] && h.net.sent == 31
  {
    var dst := Top(0x10, ADDR_LEN);
    var start := FreshThree(c, nodes, sa, sx, sy);
    h := Launch(c, start, A, m, dst, TYPE_PING, X);
    var q := Launched(Plain(sa), dst, TYPE_PING);
    assert Shuttle(h.net, X, Y, q);
    h := Shuttles(c, h, X, Y, q, m, 30);
    p := Spent(q, 30);
  }

  lemma PingKept(c: Scheme, nd: NodeSpec, m: Memory, p: Pkt)
    requires Ready(c, nd, m) && Sound(p) && p.typ == TYPE_PING && p.ttl == 1 && Keeps(nd, p.dst) && !nd.checkSign
    ensures Receive(c, nd, m, Encode(p)) == Forward(c, nd, m, N.Reply(c, nd, m, p))
  {
    WireRoundTripIff(p);
    assert KeepsWith(nd, p.dst, m);
    assert Forward(c, nd, m, p) == Deliver(c, nd, m, p.(ttl := 0));
    N.DeliverPing(c, nd, m, p, 0);
  }

  /** The ping is answered at x, and the reply starts its way to y. */
  lemma PingAnswered(c: Scheme, net: N.Net, p: Pkt, m: Memory) returns (r: Pkt)
    requires N.NetOk(c, net) && MemoryOk(m) && Sound(p) && p.typ == TYPE_PING && p.ttl == 1
    requires X in net.nodes && Keeps(net.nodes[X], p.dst) && Sends(net.nodes[X], p.src, Y)
    requires !net.nodes[X].checkSign && net.flight == [Datagram(X, Encode(p))]
    ensures Sound(r) && r.ttl == 31 && r.dst == p.src && N.Enabled(net, N.Arrive(0, m))
    ensures N.Next(c, net, N.Arrive(0, m)) == net.(flight := [Datagram(Y, Encode(r))], sent := net.sent + 1)
  {
    var nd := net.nodes[X];
    var reply := N.Reply(c, nd, m, p);
    PingKept(c, nd, m, p);
    Relays(c, nd, m, reply, Y);
    r := Spent(reply, 1);
    ArrivesAlone(c, net, Datagram(X, Encode(p)), m, Datagram(Y, Encode(r)));
  }

  lemma Rerouted(c: Scheme, h: History, at: NetAddr, s: State) returns (h': History)
    requires Possible(c, h) && at in h.net.nodes && NodeOk(Plain(s)) && h.net.nodes[at].self == s.self.addr
    requires h.net.nodes[at].key == None && !h.net.nodes[at].checkSign && !h.net.nodes[at].upcall
    ensures Follows(c, h, h') && h'.net == h.net.(nodes := h.net.nodes[at := Plain(s)])
  {
    assert h.net.nodes[at].(router := s) == Plain(s);
    h' := Continue(c, h, N.Reroute(at, s));
  }

  lemma OneSwapped(nodes: map<NetAddr, NodeSpec>, sa: State, sx: State, sy: State, s: State)
    requires Three(nodes, sa, sx, sy) && NodeOk(Plain(s))
    ensures Three(nodes[X := Plain(s)], sa, s, sy) && Three(nodes[Y := Plain(s)], sa, sx, s)
  {
  }

  lemma Swapped(c: Scheme, h: History, sa: State, sx: State, sy: State, sx': State, sy': State) returns (h': History)
    requires Possible(c, h) && Three(h.net.nodes, sa, sx, sy)
    requires NodeOk(Plain(sx')) && sx'.self.addr == sx.self.addr && NodeOk(Plain(sy')) && sy'.self.addr == sy.self.addr
    ensures Follows(c, h, h') && Three(h'.net.nodes, sa, sx', sy')
    ensures h'.net.flight == h.net.flight && h'.net.sent == h.net.sent
  {
    var next := Rerouted(c, h, X, sx');
    OneSwapped(h.net.nodes, sa, sx, sy, sx');
    OneSwapped(next.net.nodes, sa, sx', sy, sy');
    h' := Rerouted(c, next, Y, sy');
  }

  lemma ReplyTravels(c: Scheme, h: History, p: Pkt, m: Memory, sa: State, sx: State, sy: State) returns (h': History)
    requires Possible(c, h) && MemoryOk(m) && Three(h.net.nodes, sa, sx, sy)
    requires Sound(p) && p.typ == TYPE_PING && p.ttl == 1 && h.net.flight == [Datagram(X, Encode(p))]
    requires Keeps(Plain(sx), p.dst) && Sends(Plain(sx), p.src, Y) && Sends(Plain(sy), p.src, X)
    ensures Follows(c, h, h') && h'.net.sent == h.net.sent + 32
  {
    var r := PingAnswered(c, h.net, p, m);
    var next := Continue(c, h, N.Arrive(0, m));
    assert Shuttle(next.net, Y, X, r);
    h' := Shuttles(c, next, Y, X, r, m, 31);
  }

  lemma PingRouters(k: nat) returns (sa: State, sx: State, sy: State, sx': State, sy': State)
    requires k > 0
    ensures Sends(Plain(sa), Top(0x10, ADDR_LEN), X)
    ensures Sends(Plain(sx), Top(0x10, ADDR_LEN), Y) && Sends(Plain(sy), Top(0x10, ADDR_LEN), X)
    ensures Keeps(Plain(sx'), Top(0x10, ADDR_LEN))
    ensures Sends(Plain(sx'), sa.self.addr, Y) && Sends(Plain(sy'), sa.self.addr, X)
    ensures sx'.self.addr == sx.self.addr && sy'.self.addr == sy.self.addr
  {
    sa := Knowing(0x40, 0x10, X, k);
    sx := Knowing(0x20, 0x10, Y, k);
    sy := Knowing(0x30, 0x10, X, k);
    sx' := Knowing(0x20, 0x40, Y, k);
    sy' := Knowing(0x30, 0x40, X, k);
    KeepsLow(k, sx');
  }

  lemma ThreeNodes(sa: State, sx: State, sy: State) returns (nodes: map<NetAddr, NodeSpec>)
    requires NodeOk(Plain(sa)) && NodeOk(Plain(sx)) && NodeOk(Plain(sy))
    ensures Three(nodes, sa, sx, sy)
  {
    nodes := map[X := Plain(sx), Y := Plain(sy), A := Plain(sa)];
  }

  lemma PingRun(c: Scheme, m: Memory, sa: State, sx: State, sy: State, sx': State, sy': State) returns (h: History)
    requires c.Correct() && MemoryOk(m)
    requires Sends(Plain(sa), Top(0x10, ADDR_LEN), X)
    requires Sends(Plain(sx), Top(0x10, ADDR_LEN), Y) && Sends(Plain(sy), Top(0x10, ADDR_LEN), X)
    requires Keeps(Plain(sx'), Top(0x10, ADDR_LEN))
    requires Sends(Plain(sx'), sa.self.addr, Y) && Sends(Plain(sy'), sa.self.addr, X)
    requires sx'.self.addr == sx.self.addr && sy'.self.addr == sy.self.addr
    ensures Possible(c, h) && Fresh(c, First(h)) && h.net.sent == Injected(h) == 63
  {
    var nodes := ThreeNodes(sa, sx, sy);
    var p;
    h, p := PingTravels(c, m, nodes, sa, sx, sy);
    h := Swapped(c, h, sa, sx, sy, sx', sy');
    h := ReplyTravels(c, h, p, m, sa, sx', sy');
  }

  /** One ping, 63 transmissions with its reply, after 2000.. and 3000.. have come to know the pinging
      node instead of the pinged one. */
  lemma PingBoundAttained(c: Scheme, m: Memory, k: nat) returns (nets: seq<N.Net>, evs: seq<N.Event>)
    requires c.Correct() && MemoryOk(m) && k > 0
    ensures N.Run(c, nets, evs) && Fresh(c, nets[0])
    ensures nets[|evs|].sent == N.Injections(evs) == 63
  {
    var sa, sx, sy, sx', sy' := PingRouters(k);
    var h := PingRun(c, m, sa, sx, sy, sx', sy');
    nets, evs := AsRun(c, h);
  }
}
