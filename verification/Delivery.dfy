/** End to end: what becomes of a packet handed along a chain of nodes. */
module Delivery {
  import opened Address
  import opened Entries
  import opened NextHops
  import opened Packets
  import opened Nodes
  import opened Network
  import opened NodeLaws

  /** A node as it is when the packet arrives, its network address, and the memory it finds. */
  datatype Stop = Stop(at: NetAddr, nd: NodeSpec, m: Memory)

  function Hop(stop: Stop, dst: Addr): Entry
    requires NodeOk(stop.nd) && MemoryOk(stop.m) && |dst| == ADDR_LEN
  {
    NextHop(stop.nd.router, dst, stop.m.beyond)
  }

  /** Every stop forwards packets for dst to the next one except the last, which keeps them. */
  ghost predicate LeadsToLast(c: Scheme, stops: seq<Stop>, dst: Addr) {
    && stops != [] && |dst| == ADDR_LEN
    && (forall i :: 0 <= i < |stops| ==> Ready(c, stops[i].nd, stops[i].m))
    && (forall i :: 0 <= i < |stops| ==> (Hop(stops[i], dst).isSet <==> i < |stops| - 1))
    && (forall i :: 0 <= i < |stops| - 1 ==> Hop(stops[i], dst).net == stops[i + 1].at)
  }

  /** No stop rejects p for its signature. */
  ghost predicate Accepted(c: Scheme, stops: seq<Stop>, p: Pkt)
    requires Legal(p)
  {
    forall i :: 0 <= i < |stops| && stops[i].nd.checkSign ==> Checks(c, p)
  }

  /** A datagram sent is received by the next stop if that is whom it is for; what is left when the
      sending ends. */
  function Travel(c: Scheme, stops: seq<Stop>, e: Effects): Effects
    requires forall i :: 0 <= i < |stops| ==> Ready(c, stops[i].nd, stops[i].m)
  {
    if stops == [] || |e.sent| != 1 || e.sent[0].to != stops[0].at then e
    else Travel(c, stops[1..], Receive(c, stops[0].nd, stops[0].m, e.sent[0].bytes))
  }

  lemma ReceiveAccepted(c: Scheme, stop: Stop, p: Pkt)
    requires Ready(c, stop.nd, stop.m) && Legal(p) && |p.data| <= MAX_LEN
    requires stop.nd.checkSign ==> Checks(c, p)
    ensures Receive(c, stop.nd, stop.m, Encode(p)) == Forward(c, stop.nd, stop.m, p)
  {
    WireRoundTripIff(p);
  }

  lemma RestLeadsToLast(c: Scheme, stops: seq<Stop>, dst: Addr)
    requires LeadsToLast(c, stops, dst) && |stops| >= 2
    ensures LeadsToLast(c, stops[1..], dst)
  {
    var rest := stops[1..];
    forall i | 0 <= i < |rest|
      ensures Ready(c, rest[i].nd, rest[i].m) && (Hop(rest[i], dst).isSet <==> i < |rest| - 1)
    {
      assert rest[i] == stops[i + 1];
    }
  }

  lemma FirstSends(c: Scheme, stops: seq<Stop>, p: Pkt)
    requires Legal(p) && p.typ < TYPES && p.ttl > 0 && LeadsToLast(c, stops, p.dst) && |stops| >= 2
    ensures Forward(c, stops[0].nd, stops[0].m, p)
         == Effects([Datagram(stops[1].at, Encode(p.(ttl := p.ttl - 1)))], [])
  {
    assert Hop(stops[0], p.dst).isSet && Hop(stops[0], p.dst).net == stops[1].at;
    RelayedToNextHop(c, stops[0].nd, stops[0].m, p);
  }

  /** A relayed packet is handled by the next stop with its time to live lowered. */
  lemma TravelStep(c: Scheme, stops: seq<Stop>, p: Pkt)
    requires Legal(p) && |p.data| <= MAX_LEN && p.typ < TYPES && p.ttl > 0
    requires LeadsToLast(c, stops, p.dst) && |stops| >= 2
    requires stops[1].nd.checkSign ==> Checks(c, p.(ttl := p.ttl - 1))
    ensures var q := p.(ttl := p.ttl - 1);
            Travel(c, stops[1..], Forward(c, stops[0].nd, stops[0].m, p))
            == Travel(c, stops[1..][1..], Forward(c, stops[1].nd, stops[1].m, q))
  {
    FirstSends(c, stops, p);
    assert stops[1..][0] == stops[1];
    ReceiveAccepted(c, stops[1], p.(ttl := p.ttl - 1));
  }

  lemma TravelEnds(c: Scheme, stops: seq<Stop>, p: Pkt)
    requires Legal(p) && LeadsToLast(c, stops, p.dst) && (p.ttl == 0 || |stops| == 1)
    ensures Travel(c, stops[1..], Forward(c, stops[0].nd, stops[0].m, p))
            == if p.ttl == 0 then NOTHING else Deliver(c, stops[0].nd, stops[0].m, p.(ttl := p.ttl - 1))
  {
    assert |stops| == 1 ==> !Hop(stops[0], p.dst).isSet;
  }

  lemma RestAccepts(c: Scheme, stops: seq<Stop>, p: Pkt, ttl: byte)
    requires Legal(p) && |stops| >= 2 && Accepted(c, stops[1..], p)
    ensures Legal(p.(ttl := ttl)) && (stops[1].nd.checkSign ==> Checks(c, p.(ttl := ttl)))
    ensures Accepted(c, stops[1..][1..], p.(ttl := ttl))
  {
    UnsignedFields(p, ttl, p.sign);
    assert stops[1..][0] == stops[1];
    assert forall i :: 0 <= i < |stops| - 2 ==> stops[1..][1..][i] == stops[1..][i + 1];
  }

  /** The chain spends one unit of the time to live per stop: it ends in a delivery at the last
      stop if that is enough, and in nothing otherwise. */
  lemma {:induction false} TravelSpendsTtl(c: Scheme, stops: seq<Stop>, p: Pkt)
    requires Legal(p) && |p.data| <= MAX_LEN && p.typ < TYPES
    requires LeadsToLast(c, stops, p.dst) && Accepted(c, stops[1..], p)
    ensures var last := stops[|stops| - 1];
            Travel(c, stops[1..], Forward(c, stops[0].nd, stops[0].m, p))
            == if p.ttl < |stops| then NOTHING else Deliver(c, last.nd, last.m, p.(ttl := p.ttl - |stops|))
    decreases |stops|
  {
    if p.ttl == 0 || |stops| == 1 {
      TravelEnds(c, stops, p);
    } else {
      var q, rest := p.(ttl := p.ttl - 1), stops[1..];
      RestAccepts(c, stops, p, q.ttl);
      TravelStep(c, stops, p);
      RestLeadsToLast(c, stops, p.dst);
      TravelSpendsTtl(c, rest, q);
      assert rest[0] == stops[1] && rest[|rest| - 1] == stops[|stops| - 1];
    }
  }

  lemma OversizedIsLost(c: Scheme, stops: seq<Stop>, p: Pkt)
    requires Legal(p) && |p.data| > MAX_LEN && p.typ < TYPES && p.ttl > 0
    requires LeadsToLast(c, stops, p.dst) && |stops| >= 2
    ensures Travel(c, stops[1..], Forward(c, stops[0].nd, stops[0].m, p)) == NOTHING
  {
    var q := p.(ttl := p.ttl - 1);
    FirstSends(c, stops, p);
    WireRoundTripIff(q);
    assert stops[1..][0] == stops[1];
    assert Receive(c, stops[1].nd, stops[1].m, Encode(q)) == NOTHING;
  }

  lemma OutgoingFields(c: Scheme, nd: NodeSpec, dst: Addr, typ: byte, payload: seq<byte>)
    requires c.Correct() && |nd.self| == |dst| == ADDR_LEN
    ensures var p := Outgoing(c, nd, dst, typ, payload);
            p.data == Truncated(payload) && p.dst == dst && p.src == nd.self
  {
  }

  lemma LocalDelivery(c: Scheme, stop: Stop, dst: Addr, payload: seq<byte>)
    requires Ready(c, stop.nd, stop.m) && |dst| == ADDR_LEN && stop.nd.upcall && !Hop(stop, dst).isSet
    ensures SendTyped(c, stop.nd, stop.m, dst, TYPE_USER, payload) == Effects([], [Truncated(payload)])
  {
    OutgoingFields(c, stop.nd, dst, TYPE_USER, payload);
  }

  lemma ChainDelivery(c: Scheme, stops: seq<Stop>, dst: Addr, payload: seq<byte>)
    requires LeadsToLast(c, stops, dst) && |stops| >= 2 && stops[|stops| - 1].nd.upcall
    requires Accepted(c, stops[1..], Outgoing(c, stops[0].nd, dst, TYPE_USER, payload))
    ensures Travel(c, stops[1..], SendTyped(c, stops[0].nd, stops[0].m, dst, TYPE_USER, payload))
         == if |stops| <= 32 && |Truncated(payload)| <= MAX_LEN then Effects([], [Truncated(payload)]) else NOTHING
  {
    var p, last := Outgoing(c, stops[0].nd, dst, TYPE_USER, payload), stops[|stops| - 1];
    OutgoingFields(c, stops[0].nd, dst, TYPE_USER, payload);
    if |p.data| <= MAX_LEN {
      TravelSpendsTtl(c, stops, p);
      if |stops| <= 32 {
        assert Deliver(c, last.nd, last.m, p.(ttl := p.ttl - |stops|)) == Effects([], [p.data]);
      }
    } else {
      OversizedIsLost(c, stops, p);
    }
  }

  /** What the sender puts in the payload is handed up at the end of the chain, whole, exactly when the
      chain has at most 32 nodes, sender included, and the payload at most 1000 bytes; where the sender
      keeps its own packet, exactly when the payload fits the length field. */
  lemma UserPayloadArrivesIff(c: Scheme, stops: seq<Stop>, dst: Addr, payload: seq<byte>)
    requires LeadsToLast(c, stops, dst) && stops[|stops| - 1].nd.upcall
    requires Accepted(c, stops[1..], Outgoing(c, stops[0].nd, dst, TYPE_USER, payload))
    ensures Travel(c, stops[1..], SendTyped(c, stops[0].nd, stops[0].m, dst, TYPE_USER, payload))
              == Effects([], [payload])
            <==> if |stops| == 1 then |payload| < LEN_WIDTH else |stops| <= 32 && |payload| <= MAX_LEN
  {
    if |stops| == 1 {
      assert !Hop(stops[0], dst).isSet;
      LocalDelivery(c, stops[0], dst, payload);
    } else {
      ChainDelivery(c, stops, dst, payload);
    }
  }

  /** r is a reply from the one node to the other whose 20 bytes begin with the payload. */
  ghost predicate Answers(r: Pkt, from: Addr, to: Addr, payload: seq<byte>) {
    && Legal(r) && r.typ == 1 && r.src == from && r.dst == to && |r.data| == 20
    && r.data[..Least(20, |payload|)] == payload[..Least(20, |payload|)]
  }

  lemma PingDelivered(c: Scheme, stop: Stop, p: Pkt, ttl: byte) returns (r: Pkt)
    requires Ready(c, stop.nd, stop.m) && Legal(p) && p.typ == TYPE_PING
    ensures Answers(r, stop.nd.self, p.src, p.data)
    ensures Deliver(c, stop.nd, stop.m, p.(ttl := ttl))
         == if Hop(stop, p.src).isSet then Effects([Datagram(Hop(stop, p.src).net, Encode(r))], []) else NOTHING
  {
    ReplyCarriesPing(c, stop.nd, stop.m, p);
    DeliverPing(c, stop.nd, stop.m, p, ttl);
    ReplyOutcome(c, stop.nd, stop.m, Reply(c, stop.nd, stop.m, p));
    r := Reply(c, stop.nd, stop.m, p).(ttl := 31);
  }

  /** A ping of at most 1000 bytes sent along a chain of at most 32 nodes comes to a reply that carries
      its first 20 bytes and leaves the last node for its next hop towards the pinging one. */
  lemma PingIsAnswered(c: Scheme, stops: seq<Stop>, dst: Addr, payload: seq<byte>) returns (r: Pkt)
    requires LeadsToLast(c, stops, dst) && |stops| <= 32 && |payload| <= 1000
    requires Accepted(c, stops[1..], Outgoing(c, stops[0].nd, dst, TYPE_PING, payload))
    ensures Answers(r, stops[|stops| - 1].nd.self, stops[0].nd.self, payload)
    ensures |stops[0].nd.self| == ADDR_LEN
    ensures var back := Hop(stops[|stops| - 1], stops[0].nd.self);
            Travel(c, stops[1..], SendTyped(c, stops[0].nd, stops[0].m, dst, TYPE_PING, payload))
            == if back.isSet then Effects([Datagram(back.net, Encode(r))], []) else NOTHING
  {
    var p, last := Outgoing(c, stops[0].nd, dst, TYPE_PING, payload), stops[|stops| - 1];
    OutgoingFields(c, stops[0].nd, dst, TYPE_PING, payload);
    TravelSpendsTtl(c, stops, p);
    r := PingDelivered(c, last, p, p.ttl - |stops|);
  }
}
