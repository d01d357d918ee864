/** What a node does with a packet, said without the functions it is made of: what it drops, whom it
    sends to, what it hands up, and what it answers. */
module NodeLaws {
  import opened Options
  import opened Address
  import opened NextHops
  import opened Packets
  import opened Nodes
  import opened Network

  //// What is dropped

  /** A datagram is handled exactly when it is accepted and, at a node that checks signatures, its source's
      key accepts its signature for destination, type and payload. */
  lemma ReceiveLaw(c: Scheme, nd: NodeSpec, m: Memory, bytes: seq<byte>)
    requires Ready(c, nd, m)
    ensures Decode(bytes) == None ==> Receive(c, nd, m, bytes) == NOTHING
    ensures Decode(bytes).Some? ==>
              var p := Decode(bytes).value;
              Receive(c, nd, m, bytes)
              == if nd.checkSign && !c.check(p.sign, p.src, p.dst + [p.typ] + p.data) then NOTHING
                 else Forward(c, nd, m, p)
  {
    if Decode(bytes).Some? {
      SignedRegion(Decode(bytes).value);
    }
  }

  /** A packet of a type past ping is neither sent on nor handed up. */
  lemma UnknownTypesGoNowhere(c: Scheme, nd: NodeSpec, m: Memory, p: Pkt)
    requires Ready(c, nd, m) && Legal(p) && p.typ >= 3
    ensures Forward(c, nd, m, p) == NOTHING
  {
  }

  /** What is handed up is the whole payload of a user packet with time to live left, at a node that has an
      up-call and no next hop for it; and then nothing is sent. */
  lemma DeliveredIff(c: Scheme, nd: NodeSpec, m: Memory, p: Pkt)
    requires Ready(c, nd, m) && Legal(p)
    ensures var e := Forward(c, nd, m, p);
            && (e.delivered != [] <==>
                  p.typ == 0 && p.ttl > 0 && nd.upcall && !NextHop(nd.router, p.dst, m.beyond).isSet)
            && (e.delivered != [] ==> e == Effects([], [p.data]))
  {
    if p.typ == TYPE_PING && p.ttl > 0 && !NextHop(nd.router, p.dst, m.beyond).isSet {
      PingAnswer(c, nd, m, p);
      ReplyOutcome(c, nd, m, Reply(c, nd, m, p));
    }
  }

  lemma ReplyOutcome(c: Scheme, nd: NodeSpec, m: Memory, r: Pkt)
    requires Ready(c, nd, m) && Legal(r) && r.typ == TYPE_REPLY
    ensures var e, hop := Forward(c, nd, m, r), NextHop(nd.router, r.dst, m.beyond);
            e == if r.ttl > 0 && hop.isSet then Effects([Datagram(hop.net, Encode(r.(ttl := r.ttl - 1)))], [])
                 else NOTHING
  {
    if r.ttl > 0 {
      DeliverReply(c, nd, m, r.(ttl := r.ttl - 1));
    }
  }

  lemma PingAnswer(c: Scheme, nd: NodeSpec, m: Memory, p: Pkt)
    requires Ready(c, nd, m) && Legal(p) && p.typ == TYPE_PING && p.ttl > 0
    requires !NextHop(nd.router, p.dst, m.beyond).isSet
    ensures Forward(c, nd, m, p) == Forward(c, nd, m, Reply(c, nd, m, p))
  {
    DeliverPing(c, nd, m, p, p.ttl - 1);
  }

  //// Whom it sends to

  /** The datagram is a packet addressed to the node's next hop for the destination it carries. */
  ghost predicate ToNextHop(nd: NodeSpec, m: Memory, d: Datagram, q: Pkt)
    requires NodeOk(nd) && MemoryOk(m)
  {
    && Legal(q) && d.bytes == Encode(q)
    && NextHop(nd.router, q.dst, m.beyond).isSet && d.to == NextHop(nd.router, q.dst, m.beyond).net
  }

  /** Whatever a node sends while handling a packet, at most one datagram, goes to its next hop for the
      destination: the packet itself, or the reply to a ping it keeps. */
  lemma SentToNextHop(c: Scheme, nd: NodeSpec, m: Memory, p: Pkt)
    requires Ready(c, nd, m) && Legal(p)
    ensures var e := Forward(c, nd, m, p);
            && |e.sent| <= 1
            && (e.sent != [] ==>
                  && p.ttl > 0
                  && (|| ToNextHop(nd, m, e.sent[0], p.(ttl := p.ttl - 1))
                      || (p.typ == 2 && ToNextHop(nd, m, e.sent[0], Reply(c, nd, m, p).(ttl := 31)))))
  {
    var e, hop := Forward(c, nd, m, p), NextHop(nd.router, p.dst, m.beyond);
    if p.ttl > 0 && hop.isSet && p.typ < TYPES {
      assert ToNextHop(nd, m, e.sent[0], p.(ttl := p.ttl - 1));
    } else if p.ttl > 0 && !hop.isSet && p.typ == TYPE_PING {
      PingAnswer(c, nd, m, p);
      ReplyOutcome(c, nd, m, Reply(c, nd, m, p));
      if e.sent != [] {
        assert ToNextHop(nd, m, e.sent[0], Reply(c, nd, m, p).(ttl := 31));
      }
    }
  }

  /** And a packet on its way somewhere else is always sent on, once. */
  lemma RelayedToNextHop(c: Scheme, nd: NodeSpec, m: Memory, p: Pkt)
    requires Ready(c, nd, m) && Legal(p) && p.ttl > 0 && p.typ < 3 && NextHop(nd.router, p.dst, m.beyond).isSet
    ensures Forward(c, nd, m, p)
         == Effects([Datagram(NextHop(nd.router, p.dst, m.beyond).net, Encode(p.(ttl := p.ttl - 1)))], [])
  {
  }

  //// What it answers

  function Least(x: nat, y: nat): nat {
    if x <= y then x else y
  }

  /** A ping is answered with a reply to its source whose 20 bytes begin with the ping's own. */
  lemma ReplyCarriesPing(c: Scheme, nd: NodeSpec, m: Memory, p: Pkt)
    requires Ready(c, nd, m) && Legal(p)
    ensures var r, n := Reply(c, nd, m, p), Least(20, |p.data|);
            && r.typ == 1 && r.src == nd.self && r.dst == p.src && r.ttl == 32
            && |r.data| == 20 && r.data[..n] == p.data[..n]
    ensures nd.key.Some? ==> Reply(c, nd, m, p).sign
                             == c.sign(nd.key.value, p.src + [1] + Reply(c, nd, m, p).data)
  {
    PackedFields(p.src, nd.self, TYPE_REPLY, Echo(p.data, m));
    SignedRegion(Packed(p.src, nd.self, TYPE_REPLY, Echo(p.data, m)));
  }

  /** A ping that has reached its end comes to its reply on the way to the ping's source, if the node has
      a next hop for that, and to nothing otherwise. */
  lemma PingHandled(c: Scheme, nd: NodeSpec, m: Memory, p: Pkt)
    requires Ready(c, nd, m) && Legal(p) && p.typ == 2 && p.ttl > 0 && !NextHop(nd.router, p.dst, m.beyond).isSet
    ensures var back := NextHop(nd.router, p.src, m.beyond);
            Forward(c, nd, m, p)
            == if back.isSet then Effects([Datagram(back.net, Encode(Reply(c, nd, m, p).(ttl := 31)))], [])
               else NOTHING
  {
    ReplyCarriesPing(c, nd, m, p);
    PingAnswer(c, nd, m, p);
    ReplyOutcome(c, nd, m, Reply(c, nd, m, p));
  }

  //// Over whole runs

  /** The node hands a packet of this type and destination up, if time to live is left. */
  ghost predicate HandsUp(nd: NodeSpec, m: Memory, typ: byte, dst: Addr)
    requires NodeOk(nd) && MemoryOk(m) && |dst| == ADDR_LEN
  {
    typ == 0 && nd.upcall && !NextHop(nd.router, dst, m.beyond).isSet
  }

  /** The payload an event hands up: that of a packet arriving, unless its node checks signatures and
      this one does not check, or one sent that the sender keeps. */
  ghost function HandedUp(c: Scheme, net: Net, ev: Event): multiset<seq<byte>>
    requires NetOk(c, net) && Enabled(net, ev)
  {
    match ev
    case Arrive(i, m) =>
      var nd, r := net.nodes[net.flight[i].to], Decode(net.flight[i].bytes);
      if r.Some? && r.value.ttl > 0 && HandsUp(nd, m, r.value.typ, r.value.dst)
         && (nd.checkSign ==> c.check(r.value.sign, r.value.src, r.value.dst + [r.value.typ] + r.value.data))
      then multiset{r.value.data} else multiset{}
    case Lose(_) => multiset{}
    case Inject(at, m, dst, typ, payload) =>
      if HandsUp(net.nodes[at], m, typ, dst) then multiset{Truncated(payload)} else multiset{}
    case Reroute(_, _) => multiset{}
  }

  ghost function AllHandedUp(c: Scheme, nets: seq<Net>, evs: seq<Event>): multiset<seq<byte>>
    requires Network.Run(c, nets, evs)
  {
    if evs == [] then multiset{}
    else
      var n := |evs| - 1;
      Network.RunPrefix(c, nets, evs);
      AllHandedUp(c, nets[..n + 1], evs[..n]) + HandedUp(c, nets[n], evs[n])
  }

  lemma DeliveredPayload(c: Scheme, nd: NodeSpec, m: Memory, p: Pkt)
    requires Ready(c, nd, m) && Legal(p)
    ensures multiset(Forward(c, nd, m, p).delivered)
         == if p.ttl > 0 && HandsUp(nd, m, p.typ, p.dst) then multiset{p.data} else multiset{}
  {
    DeliveredIff(c, nd, m, p);
  }

  lemma StepDelivers(c: Scheme, net: Net, ev: Event)
    requires NetOk(c, net) && Enabled(net, ev)
    ensures Next(c, net, ev).delivered == net.delivered + HandedUp(c, net, ev)
  {
    match ev
    case Arrive(i, m) =>
      var d := net.flight[i];
      ReceiveLaw(c, net.nodes[d.to], m, d.bytes);
      if Decode(d.bytes).Some? {
        DeliveredPayload(c, net.nodes[d.to], m, Decode(d.bytes).value);
      }
    case Lose(_) =>
    case Inject(at, m, dst, typ, payload) =>
      PackedFields(dst, net.nodes[at].self, typ, payload);
      DeliveredPayload(c, net.nodes[at], m, Outgoing(c, net.nodes[at], dst, typ, payload));
    case Reroute(_, _) =>
  }

  /** Over every run, whatever was in flight at its start: with multiplicity, what was handed up are the
      user payloads kept by their own sender and those that arrived with time to live left where there was
      no next hop, at checking nodes with a signature that checks. */
  lemma {:induction false} DeliveriesAccounted(c: Scheme, nets: seq<Net>, evs: seq<Event>)
    requires Network.Run(c, nets, evs)
    ensures nets[|evs|].delivered == nets[0].delivered + AllHandedUp(c, nets, evs)
  {
    if evs != [] {
      var n := |evs| - 1;
      Network.RunPrefix(c, nets, evs);
      DeliveriesAccounted(c, nets[..n + 1], evs[..n]);
      StepDelivers(c, nets[n], evs[n]);
    }
  }

  /** Over every run: the arrival of a badly signed packet at a checking node does nothing but take it out
      of flight. It is not relayed, handed up or answered. */
  lemma BadlySignedIsDropped(c: Scheme, nets: seq<Net>, evs: seq<Event>, j: nat)
    requires Network.Run(c, nets, evs) && j < |evs| && evs[j].Arrive?
    requires var d := nets[j].flight[evs[j].i];
             && nets[j].nodes[d.to].checkSign && Decode(d.bytes).Some?
             && var p := Decode(d.bytes).value; !c.check(p.sign, p.src, p.dst + [p.typ] + p.data)
    ensures nets[j + 1] == nets[j].(flight := Without(nets[j].flight, evs[j].i))
  {
    var d := nets[j].flight[evs[j].i];
    ReceiveLaw(c, nets[j].nodes[d.to], evs[j].m, d.bytes);
    assert nets[j + 1] == Next(c, nets[j], evs[j]);
    assert nets[j].flight[..evs[j].i] + nets[j].flight[evs[j].i + 1..] + [] == Without(nets[j].flight, evs[j].i);
  }
}
