/** Many nodes and the datagrams in flight between them: loss is allowed, duplication is not. */
module Network {
  import opened Address
  import opened Entries
  import opened RouterStates
  import opened Packets
  import opened Nodes

  /** nodes by network address; sent, delivered and injected record the whole past. */
  datatype Net = Net(nodes: map<NetAddr, NodeSpec>, flight: seq<Datagram>, sent: nat,
                     delivered: multiset<seq<byte>>, injected: seq<seq<byte>>)

  datatype Event =
    | Arrive(i: nat, m: Memory)
    | Lose(i: nat)
    | Inject(at: NetAddr, m: Memory, dst: Addr, typ: byte, payload: seq<byte>)
    | Reroute(at: NetAddr, router: State)

  ghost predicate NetOk(c: Scheme, net: Net) {
    c.Correct() && forall a :: a in net.nodes ==> NodeOk(net.nodes[a])
  }

  ghost predicate Enabled(net: Net, ev: Event) {
    match ev
    case Arrive(i, m) => i < |net.flight| && net.flight[i].to in net.nodes && MemoryOk(m)
    case Lose(i) => i < |net.flight|
    case Inject(at, m, dst, typ, _) => at in net.nodes && MemoryOk(m) && |dst| == ADDR_LEN && typ < TYPES
    case Reroute(at, router) => at in net.nodes && NodeOk(net.nodes[at].(router := router))
  }

  function Without(ds: seq<Datagram>, i: nat): seq<Datagram>
    requires i < |ds|
  {
    ds[..i] + ds[i + 1..]
  }

  function Emit(net: Net, e: Effects): Net {
    net.(flight := net.flight + e.sent, sent := net.sent + |e.sent|, delivered := net.delivered + multiset(e.delivered))
  }

  /** One step. A node's routing state may be replaced by any other at any time. */
  function Next(c: Scheme, net: Net, ev: Event): Net
    requires NetOk(c, net) && Enabled(net, ev)
  {
    match ev
    case Arrive(i, m) =>
      var d := net.flight[i];
      Emit(net.(flight := Without(net.flight, i)), Receive(c, net.nodes[d.to], m, d.bytes))
    case Lose(i) => net.(flight := Without(net.flight, i))
    case Inject(at, m, dst, typ, payload) =>
      var user := if typ == TYPE_USER then [payload] else [];
      Emit(net.(injected := net.injected + user), SendTyped(c, net.nodes[at], m, dst, typ, payload))
    case Reroute(at, router) => net.(nodes := net.nodes[at := net.nodes[at].(router := router)])
  }

  /** nets are the states before, between and after the events. */
  ghost predicate Run(c: Scheme, nets: seq<Net>, evs: seq<Event>) {
    && |nets| == |evs| + 1 && NetOk(c, nets[0])
    && forall i :: 0 <= i < |evs| ==>
         NetOk(c, nets[i]) && Enabled(nets[i], evs[i]) && nets[i + 1] == Next(c, nets[i], evs[i])
  }

  lemma RunPrefix(c: Scheme, nets: seq<Net>, evs: seq<Event>)
    requires Run(c, nets, evs) && evs != []
    ensures Run(c, nets[..|nets| - 1], evs[..|evs| - 1])
  {
  }

  /** No event spoils the network for the next one. */
  lemma RunKeepsOk(c: Scheme, nets: seq<Net>, evs: seq<Event>)
    requires Run(c, nets, evs)
    ensures NetOk(c, nets[|evs|])
  {
    if evs != [] {
      var n := |evs| - 1;
      assert nets[n + 1] == Next(c, nets[n], evs[n]);
    }
  }

  //// What handling one packet can come to

  /** The packet went out once, its time to live lowered and nothing else changed. */
  ghost predicate Relayed(p: Pkt, e: Effects)
    requires Legal(p)
  {
    && p.ttl > 0 && e.delivered == [] && |e.sent| == 1
    && e.sent[0].bytes == Encode(p.(ttl := p.ttl - 1))
  }

  function Reply(c: Scheme, nd: NodeSpec, m: Memory, p: Pkt): (r: Pkt)
    requires Ready(c, nd, m) && Legal(p)
    ensures Legal(r) && r.typ == TYPE_REPLY && r.ttl == DEFAULT_TTL
  {
    Outgoing(c, nd, p.src, TYPE_REPLY, Echo(p.data, m))
  }

  ghost predicate Outcome(c: Scheme, nd: NodeSpec, m: Memory, p: Pkt, e: Effects)
    requires Ready(c, nd, m) && Legal(p)
  {
    || e == NOTHING
    || Relayed(p, e)
    || (p.ttl > 0 && p.typ == TYPE_USER && e == Effects([], [p.data]))
    || (p.ttl > 0 && p.typ == TYPE_PING && Relayed(Reply(c, nd, m, p), e))
  }

  /** Unless the packet stays here, it is dropped or relayed. */
  lemma ForwardAway(c: Scheme, nd: NodeSpec, m: Memory, p: Pkt)
    requires Ready(c, nd, m) && Legal(p)
    ensures var e, q := Forward(c, nd, m, p), if p.ttl > 0 then p.(ttl := p.ttl - 1) else p;
            e == NOTHING || Relayed(p, e) || (p.ttl > 0 && Legal(q) && e == Deliver(c, nd, m, q))
  {
  }

  lemma DeliverPing(c: Scheme, nd: NodeSpec, m: Memory, p: Pkt, ttl: byte)
    requires Ready(c, nd, m) && Legal(p) && p.typ == TYPE_PING
    ensures Deliver(c, nd, m, p.(ttl := ttl)) == Forward(c, nd, m, Reply(c, nd, m, p))
  {
  }

  lemma DeliverReply(c: Scheme, nd: NodeSpec, m: Memory, p: Pkt)
    requires Ready(c, nd, m) && Legal(p) && p.typ == TYPE_REPLY
    ensures Deliver(c, nd, m, p) == NOTHING
  {
  }

  /** Dropped, relayed, handed up, or answered with a reply that is itself dropped or relayed. */
  lemma ForwardOutcome(c: Scheme, nd: NodeSpec, m: Memory, p: Pkt)
    requires Ready(c, nd, m) && Legal(p)
    ensures Outcome(c, nd, m, p, Forward(c, nd, m, p))
  {
    ForwardAway(c, nd, m, p);
    if p.ttl > 0 && p.typ == TYPE_PING {
      var r := Reply(c, nd, m, p);
      DeliverPing(c, nd, m, p, p.ttl - 1);
      ForwardAway(c, nd, m, r);
      DeliverReply(c, nd, m, r.(ttl := r.ttl - 1));
    }
  }

  lemma ReceiveOutcome(c: Scheme, nd: NodeSpec, m: Memory, bytes: seq<byte>)
    requires Ready(c, nd, m)
    ensures var e := Receive(c, nd, m, bytes);
            e == NOTHING || (Decode(bytes).Some? && Outcome(c, nd, m, Decode(bytes).value, e))
  {
    if Decode(bytes).Some? {
      ForwardOutcome(c, nd, m, Decode(bytes).value);
    }
  }

  //// Sums over the datagrams in flight

  function Sum<T>(s: seq<T>, f: T -> nat): nat {
    if s == [] then 0 else Sum(s[..|s| - 1], f) + f(s[|s| - 1])
  }

  function Gather<T, U>(s: seq<T>, f: T -> multiset<U>): multiset<U> {
    if s == [] then multiset{} else Gather(s[..|s| - 1], f) + f(s[|s| - 1])
  }

  lemma {:induction false} SumConcat<T>(xs: seq<T>, ys: seq<T>, f: T -> nat)
    ensures Sum(xs + ys, f) == Sum(xs, f) + Sum(ys, f)
  {
    if ys == [] {
      assert xs + ys == xs;
    } else {
      SumConcat(xs, ys[..|ys| - 1], f);
      assert (xs + ys)[..|xs + ys| - 1] == xs + ys[..|ys| - 1];
    }
  }

  lemma {:induction false} GatherConcat<T, U>(xs: seq<T>, ys: seq<T>, f: T -> multiset<U>)
    ensures Gather(xs + ys, f) == Gather(xs, f) + Gather(ys, f)
  {
    if ys == [] {
      assert xs + ys == xs;
    } else {
      GatherConcat(xs, ys[..|ys| - 1], f);
      assert (xs + ys)[..|xs + ys| - 1] == xs + ys[..|ys| - 1];
    }
  }

  lemma SumOne<T>(x: T, f: T -> nat)
    ensures Sum([x], f) == f(x)
  {
    assert [x][..0] == [];
  }

  lemma GatherOne<T, U>(x: T, f: T -> multiset<U>)
    ensures Gather([x], f) == f(x)
  {
    assert [x][..0] == [];
  }

  lemma SumWithout(ds: seq<Datagram>, i: nat, f: Datagram -> nat)
    requires i < |ds|
    ensures Sum(ds, f) == Sum(Without(ds, i), f) + f(ds[i])
  {
    Reassemble(ds, i);
    SumRemoved(ds[..i], ds[i], ds[i + 1..], f);
  }

  lemma Reassemble<T>(s: seq<T>, i: nat)
    requires i < |s|
    ensures s == (s[..i] + [s[i]]) + s[i + 1..]
  {
  }

  lemma SumRemoved<T>(a: seq<T>, x: T, b: seq<T>, f: T -> nat)
    ensures Sum((a + [x]) + b, f) == Sum(a + b, f) + f(x)
  {
    SumSplit(a, x, b, f);
    SumConcat(a, b, f);
  }

  lemma SumSplit<T>(a: seq<T>, x: T, b: seq<T>, f: T -> nat)
    ensures Sum((a + [x]) + b, f) == Sum(a, f) + f(x) + Sum(b, f)
  {
    SumConcat(a + [x], b, f);
    SumConcat(a, [x], f);
    SumOne(x, f);
  }

  lemma GatherWithout<U>(ds: seq<Datagram>, i: nat, f: Datagram -> multiset<U>)
    requires i < |ds|
    ensures Gather(ds, f) == Gather(Without(ds, i), f) + f(ds[i])
  {
    Reassemble(ds, i);
    GatherRemoved(ds[..i], ds[i], ds[i + 1..], f);
  }

  lemma GatherRemoved<T, U>(a: seq<T>, x: T, b: seq<T>, f: T -> multiset<U>)
    ensures Gather((a + [x]) + b, f) == Gather(a + b, f) + f(x)
  {
    GatherSplit(a, x, b, f);
    GatherConcat(a, b, f);
    Reorder(Gather(a, f), f(x), Gather(b, f));
  }

  lemma GatherSplit<T, U>(a: seq<T>, x: T, b: seq<T>, f: T -> multiset<U>)
    ensures Gather((a + [x]) + b, f) == (Gather(a, f) + f(x)) + Gather(b, f)
  {
    GatherConcat(a + [x], b, f);
    GatherConcat(a, [x], f);
    GatherOne(x, f);
  }

  lemma Reorder<U>(x: multiset<U>, y: multiset<U>, z: multiset<U>)
    ensures (x + y) + z == (x + z) + y
  {
  }

  //// Transmissions still to come

  /** How many more times a packet in flight, and the reply it may trigger, can be sent. */
  function Budget(p: Pkt): nat {
    if p.typ == TYPE_PING && p.ttl > 0 then p.ttl + 31 else p.ttl
  }

  function DatagramBudget(d: Datagram): nat {
    match Decode(d.bytes)
    case None => 0
    case Some(p) => Budget(p)
  }

  function TotalBudget(ds: seq<Datagram>): nat {
    Sum(ds, DatagramBudget)
  }

  /** Sends made by a call, plus those its datagrams may still cause. */
  function Cost(e: Effects): nat {
    |e.sent| + TotalBudget(e.sent)
  }

  lemma RelayCost(p: Pkt, e: Effects)
    requires Legal(p) && Relayed(p, e)
    ensures Cost(e) <= p.ttl + if p.typ == TYPE_PING && p.ttl > 1 then 31 else 0
  {
    var q := p.(ttl := p.ttl - 1);
    WireRoundTripIff(q);
    assert e.sent == [e.sent[0]];
    SumOne(e.sent[0], DatagramBudget);
    assert DatagramBudget(e.sent[0]) <= Budget(q);
  }

  /** Handling a packet costs no more than its budget. */
  lemma OutcomeCost(c: Scheme, nd: NodeSpec, m: Memory, p: Pkt, e: Effects)
    requires Ready(c, nd, m) && Legal(p) && Outcome(c, nd, m, p, e)
    ensures Cost(e) <= Budget(p)
  {
    if Relayed(p, e) {
      RelayCost(p, e);
    } else if p.typ == TYPE_PING && Relayed(Reply(c, nd, m, p), e) {
      RelayCost(Reply(c, nd, m, p), e);
    }
  }

  lemma ReceiveCost(c: Scheme, nd: NodeSpec, m: Memory, d: Datagram)
    requires Ready(c, nd, m)
    ensures Cost(Receive(c, nd, m, d.bytes)) <= DatagramBudget(d)
  {
    var e := Receive(c, nd, m, d.bytes);
    ReceiveOutcome(c, nd, m, d.bytes);
    if e != NOTHING {
      OutcomeCost(c, nd, m, Decode(d.bytes).value, e);
    }
  }

  lemma InjectCost(c: Scheme, nd: NodeSpec, m: Memory, dst: Addr, typ: byte, payload: seq<byte>)
    requires Ready(c, nd, m) && |dst| == ADDR_LEN && typ < TYPES
    ensures Cost(SendTyped(c, nd, m, dst, typ, payload)) <= if typ == TYPE_PING then 63 else 32
  {
    var p := Outgoing(c, nd, dst, typ, payload);
    ForwardOutcome(c, nd, m, p);
    OutcomeCost(c, nd, m, p, Forward(c, nd, m, p));
  }

  /** Transmissions an injection can cause: 32, or 63 for a ping and the reply to it. */
  function InjectionCost(ev: Event): nat {
    if ev.Inject? then (if ev.typ == TYPE_PING then 63 else 32) else 0
  }

  /** Sends made plus sends still possible grow only by injection. */
  lemma StepTransmissions(c: Scheme, net: Net, ev: Event)
    requires NetOk(c, net) && Enabled(net, ev)
    ensures var net' := Next(c, net, ev);
            net'.sent + TotalBudget(net'.flight) <= net.sent + TotalBudget(net.flight) + InjectionCost(ev)
  {
    match ev
    case Arrive(i, m) =>
      var d := net.flight[i];
      SumWithout(net.flight, i, DatagramBudget);
      ReceiveCost(c, net.nodes[d.to], m, d);
      SumConcat(Without(net.flight, i), Receive(c, net.nodes[d.to], m, d.bytes).sent, DatagramBudget);
    case Lose(i) => SumWithout(net.flight, i, DatagramBudget);
    case Inject(at, m, dst, typ, payload) =>
      InjectCost(c, net.nodes[at], m, dst, typ, payload);
      SumConcat(net.flight, SendTyped(c, net.nodes[at], m, dst, typ, payload).sent, DatagramBudget);
    case Reroute(_, _) =>
  }

  /** Datagrams in flight plus their budgets: the termination measure. */
  function Weight(net: Net): nat {
    |net.flight| + TotalBudget(net.flight)
  }

  /** Every arrival and every loss lowers the weight, whatever any router knows. */
  lemma ArrivalLowersWeight(c: Scheme, net: Net, ev: Event)
    requires NetOk(c, net) && Enabled(net, ev) && (ev.Arrive? || ev.Lose?)
    ensures Weight(Next(c, net, ev)) < Weight(net)
  {
    StepTransmissions(c, net, ev);
    if ev.Arrive? {
      var d := net.flight[ev.i];
      assert Next(c, net, ev).sent == net.sent + |Receive(c, net.nodes[d.to], ev.m, d.bytes).sent|;
    }
  }

  function Moves(evs: seq<Event>): nat {
    if evs == [] then 0
    else Moves(evs[..|evs| - 1]) + if evs[|evs| - 1].Arrive? || evs[|evs| - 1].Lose? then 1 else 0
  }

  function Injections(evs: seq<Event>): nat {
    if evs == [] then 0 else Injections(evs[..|evs| - 1]) + InjectionCost(evs[|evs| - 1])
  }

  /** Once injections stop, a run has at most as many arrivals and losses as the weight it starts with. */
  lemma {:induction false} RunsTerminate(c: Scheme, nets: seq<Net>, evs: seq<Event>)
    requires Run(c, nets, evs) && forall i :: 0 <= i < |evs| ==> !evs[i].Inject?
    ensures Moves(evs) + Weight(nets[|evs|]) <= Weight(nets[0])
  {
    if evs != [] {
      var n := |evs| - 1;
      RunPrefix(c, nets, evs);
      RunsTerminate(c, nets[..n + 1], evs[..n]);
      if evs[n].Arrive? || evs[n].Lose? {
        ArrivalLowersWeight(c, nets[n], evs[n]);
      }
    }
  }

  /** Over every run, injections included: no more transmissions than 32 for each packet sent and
      63 for each ping, on top of what the packets in flight at the start were entitled to. */
  lemma {:induction false} TransmissionsBounded(c: Scheme, nets: seq<Net>, evs: seq<Event>)
    requires Run(c, nets, evs)
    ensures nets[|evs|].sent + TotalBudget(nets[|evs|].flight)
            <= nets[0].sent + TotalBudget(nets[0].flight) + Injections(evs)
  {
    if evs != [] {
      var n := |evs| - 1;
      RunPrefix(c, nets, evs);
      TransmissionsBounded(c, nets[..n + 1], evs[..n]);
      StepTransmissions(c, nets[n], evs[n]);
    }
  }

  //// Signatures survive routing

  /** Nodes with these addresses sign, with the key their address is the public half of. */
  ghost predicate SignersOk(c: Scheme, net: Net, signers: set<Addr>) {
    forall a :: a in net.nodes && net.nodes[a].self in signers ==> Signs(c, net.nodes[a])
  }

  ghost predicate Signs(c: Scheme, nd: NodeSpec) {
    nd.key.Some? && c.pk(nd.key.value) == nd.self
  }

  /** A datagram that claims to come from a signer carries a signature that checks. */
  ghost predicate Authentic(c: Scheme, signers: set<Addr>, bytes: seq<byte>) {
    match Decode(bytes)
    case None => true
    case Some(p) => p.src in signers ==> Checks(c, p)
  }

  ghost predicate AllAuthentic(c: Scheme, signers: set<Addr>, ds: seq<Datagram>) {
    forall i :: 0 <= i < |ds| ==> Authentic(c, signers, ds[i].bytes)
  }

  lemma RelayAuthentic(c: Scheme, p: Pkt, e: Effects, signers: set<Addr>)
    requires Legal(p) && Relayed(p, e) && (p.src in signers ==> Checks(c, p))
    ensures AllAuthentic(c, signers, e.sent)
  {
    UnsignedFields(p, p.ttl - 1, p.sign);
    WireRoundTripIff(p.(ttl := p.ttl - 1));
  }

  lemma OutcomeAuthentic(c: Scheme, nd: NodeSpec, m: Memory, p: Pkt, e: Effects, signers: set<Addr>)
    requires Ready(c, nd, m) && Legal(p) && Outcome(c, nd, m, p, e)
    requires p.src in signers ==> Checks(c, p)
    requires nd.self in signers ==> Signs(c, nd)
    ensures AllAuthentic(c, signers, e.sent)
  {
    if Relayed(p, e) {
      RelayAuthentic(c, p, e, signers);
    } else if p.typ == TYPE_PING && Relayed(Reply(c, nd, m, p), e) {
      OutgoingAuthentic(c, nd, p.src, TYPE_REPLY, Echo(p.data, m), signers);
      RelayAuthentic(c, Reply(c, nd, m, p), e, signers);
    }
  }

  lemma OutgoingAuthentic(c: Scheme, nd: NodeSpec, dst: Addr, typ: byte, payload: seq<byte>, signers: set<Addr>)
    requires c.Correct() && |nd.self| == |dst| == ADDR_LEN
    requires nd.self in signers ==> Signs(c, nd)
    ensures var p := Outgoing(c, nd, dst, typ, payload); p.src in signers ==> Checks(c, p)
  {
    if nd.self in signers {
      SignedChecks(c, nd.key.value, Packed(dst, nd.self, typ, payload), DEFAULT_TTL);
    }
  }

  lemma StepAuthentic(c: Scheme, net: Net, ev: Event, signers: set<Addr>)
    requires NetOk(c, net) && Enabled(net, ev) && SignersOk(c, net, signers)
    requires AllAuthentic(c, signers, net.flight)
    ensures SignersOk(c, Next(c, net, ev), signers) && AllAuthentic(c, signers, Next(c, net, ev).flight)
  {
    match ev
    case Arrive(i, m) =>
      var d := net.flight[i];
      var nd, e := net.nodes[d.to], Receive(c, net.nodes[d.to], m, d.bytes);
      ReceiveOutcome(c, nd, m, d.bytes);
      if e != NOTHING {
        assert Authentic(c, signers, d.bytes);
        OutcomeAuthentic(c, nd, m, Decode(d.bytes).value, e, signers);
      }
    case Lose(i) =>
    case Inject(at, m, dst, typ, payload) =>
      var nd, p := net.nodes[at], Outgoing(c, net.nodes[at], dst, typ, payload);
      OutgoingAuthentic(c, nd, dst, typ, payload, signers);
      ForwardOutcome(c, nd, m, p);
      OutcomeAuthentic(c, nd, m, p, Forward(c, nd, m, p), signers);
    case Reroute(_, _) =>
  }

  /** Over every run, whatever the hops: a packet from a node that signs is never rejected. */
  lemma {:induction false} SignaturesSurvive(c: Scheme, nets: seq<Net>, evs: seq<Event>, signers: set<Addr>)
    requires Run(c, nets, evs) && SignersOk(c, nets[0], signers) && AllAuthentic(c, signers, nets[0].flight)
    ensures SignersOk(c, nets[|evs|], signers) && AllAuthentic(c, signers, nets[|evs|].flight)
  {
    if evs != [] {
      var n := |evs| - 1;
      RunPrefix(c, nets, evs);
      SignaturesSurvive(c, nets[..n + 1], evs[..n], signers);
      StepAuthentic(c, nets[n], evs[n], signers);
    }
  }

  /** So a packet a signing node sent, or answered a ping with, is forwarded or delivered wherever
      it arrives: no node takes it for badly signed. */
  lemma SignedIsNeverRejected(c: Scheme, nets: seq<Net>, evs: seq<Event>, signers: set<Addr>, i: nat, m: Memory)
    requires Run(c, nets, evs) && SignersOk(c, nets[0], signers) && AllAuthentic(c, signers, nets[0].flight)
    requires Enabled(nets[|evs|], Arrive(i, m))
    requires var d := nets[|evs|].flight[i]; Decode(d.bytes).Some? && Decode(d.bytes).value.src in signers
    ensures NetOk(c, nets[|evs|])
    ensures var net := nets[|evs|];
            var d := net.flight[i];
            Receive(c, net.nodes[d.to], m, d.bytes) == Forward(c, net.nodes[d.to], m, Decode(d.bytes).value)
  {
    RunKeepsOk(c, nets, evs);
    SignaturesSurvive(c, nets, evs, signers);
    assert Authentic(c, signers, nets[|evs|].flight[i].bytes);
  }

  //// Deliveries are injections

  function UserPayload(p: Pkt): multiset<seq<byte>> {
    if p.typ == TYPE_USER then multiset{p.data} else multiset{}
  }

  /** The payload of a user packet in flight. */
  function UserData(d: Datagram): multiset<seq<byte>> {
    match Decode(d.bytes)
    case None => multiset{}
    case Some(p) => UserPayload(p)
  }

  function InFlight(ds: seq<Datagram>): multiset<seq<byte>> {
    Gather(ds, UserData)
  }

  /** User payloads a call accounts for: handed up, or on their way. */
  function Accounted(e: Effects): multiset<seq<byte>> {
    multiset(e.delivered) + InFlight(e.sent)
  }

  lemma RelayAccounts(p: Pkt, e: Effects)
    requires Legal(p) && Relayed(p, e)
    ensures Accounted(e) <= UserPayload(p)
  {
    WireRoundTripIff(p.(ttl := p.ttl - 1));
    assert e.sent == [e.sent[0]];
    GatherOne(e.sent[0], UserData);
    assert UserData(e.sent[0]) <= UserPayload(p);
  }

  lemma OutcomeAccounts(c: Scheme, nd: NodeSpec, m: Memory, p: Pkt, e: Effects)
    requires Ready(c, nd, m) && Legal(p) && Outcome(c, nd, m, p, e)
    ensures Accounted(e) <= UserPayload(p)
  {
    if Relayed(p, e) {
      RelayAccounts(p, e);
    } else if p.typ == TYPE_PING && Relayed(Reply(c, nd, m, p), e) {
      RelayAccounts(Reply(c, nd, m, p), e);
    }
  }

  /** What the 16-bit length field keeps of each payload. */
  function Cut(payloads: seq<seq<byte>>): multiset<seq<byte>> {
    multiset(seq(|payloads|, i requires 0 <= i < |payloads| => Truncated(payloads[i])))
  }

  lemma CutOneMore(payloads: seq<seq<byte>>, payload: seq<byte>)
    ensures Cut(payloads + [payload]) == Cut(payloads) + multiset{Truncated(payload)}
  {
    var all := payloads + [payload];
    assert seq(|all|, i requires 0 <= i < |all| => Truncated(all[i]))
        == seq(|payloads|, i requires 0 <= i < |payloads| => Truncated(payloads[i])) + [Truncated(payload)];
  }

  lemma CutKeepsShort(payloads: seq<seq<byte>>)
    requires forall i :: 0 <= i < |payloads| ==> |payloads[i]| < LEN_WIDTH
    ensures Cut(payloads) == multiset(payloads)
  {
    assert seq(|payloads|, i requires 0 <= i < |payloads| => Truncated(payloads[i])) == payloads;
  }

  /** Counted with multiplicity, what was delivered or is in flight is what the length field kept of
      payloads injected. */
  ghost predicate Conserved(net: Net) {
    net.delivered + InFlight(net.flight) <= Cut(net.injected)
  }

  lemma StepConserves(c: Scheme, net: Net, ev: Event)
    requires NetOk(c, net) && Enabled(net, ev) && Conserved(net)
    ensures Conserved(Next(c, net, ev))
  {
    match ev
    case Arrive(i, m) =>
      var d := net.flight[i];
      var nd, e := net.nodes[d.to], Receive(c, net.nodes[d.to], m, d.bytes);
      GatherWithout(net.flight, i, UserData);
      GatherConcat(Without(net.flight, i), e.sent, UserData);
      ReceiveOutcome(c, nd, m, d.bytes);
      if e != NOTHING {
        OutcomeAccounts(c, nd, m, Decode(d.bytes).value, e);
      }
      assert Accounted(e) <= UserData(d);
    case Lose(i) => GatherWithout(net.flight, i, UserData);
    case Inject(at, m, dst, typ, payload) =>
      var nd, p := net.nodes[at], Outgoing(c, net.nodes[at], dst, typ, payload);
      ForwardOutcome(c, nd, m, p);
      OutcomeAccounts(c, nd, m, p, Forward(c, nd, m, p));
      GatherConcat(net.flight, Forward(c, nd, m, p).sent, UserData);
      CutOneMore(net.injected, payload);
      assert net.injected + [] == net.injected;
    case Reroute(_, _) =>
  }

  /** Over every run from a conserved state: nothing is delivered more often than it was injected, cut
      to what the length field keeps of it; below 65536 bytes nothing altered is ever delivered. */
  lemma {:induction false} DeliveriesWereInjected(c: Scheme, nets: seq<Net>, evs: seq<Event>)
    requires Run(c, nets, evs) && Conserved(nets[0])
    ensures Conserved(nets[|evs|]) && nets[|evs|].delivered <= Cut(nets[|evs|].injected)
    ensures var payloads := nets[|evs|].injected;
            (forall i :: 0 <= i < |payloads| ==> |payloads[i]| < LEN_WIDTH) ==>
              nets[|evs|].delivered <= multiset(payloads)
  {
    if forall i :: 0 <= i < |nets[|evs|].injected| ==> |nets[|evs|].injected[i]| < LEN_WIDTH {
      CutKeepsShort(nets[|evs|].injected);
    }
    if evs != [] {
      var n := |evs| - 1;
      RunPrefix(c, nets, evs);
      DeliveriesWereInjected(c, nets[..n + 1], evs[..n]);
      StepConserves(c, nets[n], evs[n]);
    }
  }
}
