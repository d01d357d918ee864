/** A node: what it does with a packet it sends, forwards, delivers or receives. */
module Nodes {
  import opened Options
  import opened Address
  import opened Entries
  import opened RouterStates
  import opened NextHops
  import opened Packets
  import opened Routers

  const TYPE_USER: byte := 0
  const TYPE_REPLY: byte := 1
  const TYPE_PING: byte := 2
  const TYPES: byte := 3
  const PING_SIZE: nat := 20

  /** A node's settings and routing state as a value. */
  datatype NodeSpec = NodeSpec(self: Addr, key: Option<seq<byte>>, checkSign: bool, upcall: bool, router: State)

  /** Memory a call may read beyond what the model holds: past the leafsets, and after the bytes a
      packet's length field covers (its terminator, the rest of a payload too long for that field, or
      what follows the buffer). */
  datatype Memory = Memory(beyond: Beyond, heap: seq<byte>)

  datatype Datagram = Datagram(to: NetAddr, bytes: seq<byte>)

  /** What handling a packet hands to the socket and to the user. */
  datatype Effects = Effects(sent: seq<Datagram>, delivered: seq<seq<byte>>)

  const NOTHING: Effects := Effects([], [])

  ghost predicate MemoryOk(m: Memory) {
    |m.beyond.left| == |m.beyond.right| == ADDR_LEN && |m.heap| == PING_SIZE
  }

  ghost predicate NodeOk(nd: NodeSpec) {
    |nd.self| == ADDR_LEN && Shape(nd.router) && nd.router.self.addr == nd.self
  }

  ghost predicate Ready(c: Scheme, nd: NodeSpec, m: Memory) {
    c.Correct() && NodeOk(nd) && MemoryOk(m)
  }

  /** A ping's reply is one ping message read from the payload's buffer, whatever its length field says. */
  function Echo(data: seq<byte>, m: Memory): (r: seq<byte>)
    requires |m.heap| == PING_SIZE
    ensures |r| == PING_SIZE
  {
    (data + m.heap)[..PING_SIZE]
  }

  function PingRank(typ: byte): nat {
    if typ == TYPE_PING then 1 else 0
  }

  function Forward(c: Scheme, nd: NodeSpec, m: Memory, p: Pkt): Effects
    requires Ready(c, nd, m) && Legal(p)
    decreases PingRank(p.typ), 1
  {
    if p.ttl == 0 then NOTHING
    else
      var q := p.(ttl := p.ttl - 1);
      var hop := NextHop(nd.router, q.dst, m.beyond);
      if hop.isSet then Transmit(q, hop.net) else Deliver(c, nd, m, q)
  }

  function Transmit(p: Pkt, to: NetAddr): Effects
    requires Legal(p)
  {
    if p.typ >= TYPES then NOTHING else Effects([Datagram(to, Encode(p))], [])
  }

  function Deliver(c: Scheme, nd: NodeSpec, m: Memory, p: Pkt): Effects
    requires Ready(c, nd, m) && Legal(p)
    decreases PingRank(p.typ), 0
  {
    if p.typ == TYPE_USER then Effects([], if nd.upcall then [p.data] else [])
    else if p.typ == TYPE_PING then SendTyped(c, nd, m, p.src, TYPE_REPLY, Echo(p.data, m))
    else NOTHING
  }

  function Outgoing(c: Scheme, nd: NodeSpec, dst: Addr, typ: byte, payload: seq<byte>): (p: Pkt)
    requires c.Correct() && |nd.self| == |dst| == ADDR_LEN
    ensures Legal(p) && p.typ == typ && p.ttl == DEFAULT_TTL
  {
    var p := Packed(dst, nd.self, typ, payload);
    if nd.key.Some? then WithSignature(c, nd.key.value, p) else p
  }

  function SendTyped(c: Scheme, nd: NodeSpec, m: Memory, dst: Addr, typ: byte, payload: seq<byte>): Effects
    requires Ready(c, nd, m) && |dst| == ADDR_LEN && typ < TYPES
    decreases PingRank(typ), 2
  {
    Forward(c, nd, m, Outgoing(c, nd, dst, typ, payload))
  }

  /** One turn of the background loop: read, perhaps check the signature, forward. */
  function Receive(c: Scheme, nd: NodeSpec, m: Memory, datagram: seq<byte>): Effects
    requires Ready(c, nd, m)
  {
    match Decode(datagram)
    case None => NOTHING
    case Some(p) =>
      if nd.checkSign && !c.check(p.sign, p.src, SignedBytes(p)) then NOTHING else Forward(c, nd, m, p)
  }

  //// The node object

  class Node {
    const scheme: Scheme
    const self: Addr
    const key: Option<seq<byte>>
    const checkSign: bool
    const router: Router
    var upcall: bool
    /** Datagrams handed to the socket and payloads handed up, in order. */
    var sent: seq<Datagram>
    var delivered: seq<seq<byte>>

    ghost predicate Valid()
      reads this, router, router.table, router.left, router.right
    {
      scheme.Correct() && router.Valid() && NodeOk(Spec())
    }

    ghost function Spec(): NodeSpec
      reads this, router, router.table, router.left, router.right
    {
      NodeSpec(self, key, checkSign, upcall, router.Model())
    }

    ghost predicate Did(before: seq<Datagram>, up: seq<seq<byte>>, e: Effects)
      reads this
    {
      sent == before + e.sent && delivered == up + e.delivered
    }

    constructor (scheme: Scheme, self: Addr, net: NetAddr, key: Option<seq<byte>>, checkSign: bool, k: nat)
      requires scheme.Correct() && |self| == ADDR_LEN && k > 0
      ensures Valid() && fresh(router) && fresh(router.table) && fresh(router.left) && fresh(router.right)
      ensures Spec() == NodeSpec(self, key, checkSign, false, Init(self, net, k))
      ensures sent == [] && delivered == []
    {
      this.scheme, this.self, this.key, this.checkSign := scheme, self, key, checkSign;
      upcall, sent, delivered := false, [], [];
      router := new Router(self, Some(net), k);
    }

    method SetUpcall(on: bool)
      requires Valid()
      modifies this`upcall
      ensures Valid() && Spec() == old(Spec()).(upcall := on)
    {
      upcall := on;
    }

    method DoForward(p: Packet, m: Memory)
      requires Valid() && p.Valid() && MemoryOk(m)
      modifies this`sent, this`delivered, p`ttl
      ensures Valid() && Spec() == old(Spec())
      ensures Did(old(sent), old(delivered), Forward(scheme, Spec(), m, old(p.Value())))
      decreases PingRank(p.typ), 1
    {
      if p.ttl == 0 {
        return;
      }
      p.ttl := p.ttl - 1;
      var nexthop := router.FindNextHop(p.dst, m.beyond);
      assert p.Value() == old(p.Value()).(ttl := p.ttl);
      if nexthop.isSet {
        DoTransmit(p, nexthop.net);
      } else {
        DoDeliver(p, m);
      }
    }

    method DoTransmit(p: Packet, to: NetAddr)
      requires Valid() && p.Valid()
      modifies this`sent
      ensures Valid() && Spec() == old(Spec())
      ensures Did(old(sent), delivered, Transmit(p.Value(), to))
    {
      if p.typ < TYPES {
        var datagram := p.Send();
        sent := sent + [Datagram(to, datagram)];
      }
    }

    method DoDeliver(p: Packet, m: Memory)
      requires Valid() && p.Valid() && MemoryOk(m)
      modifies this`sent, this`delivered
      ensures Valid() && Spec() == old(Spec())
      ensures Did(old(sent), old(delivered), Deliver(scheme, Spec(), m, p.Value()))
      decreases PingRank(p.typ), 0
    {
      if p.typ == TYPE_USER {
        if upcall {
          delivered := delivered + [p.payload[..p.len]];
        }
      } else if p.typ == TYPE_PING {
        DoSendTyped(p.src, TYPE_REPLY, Echo(p.payload[..p.len], m), m);
      }
    }

    method DoSendTyped(dst: Addr, typ: byte, payload: seq<byte>, m: Memory)
      requires Valid() && MemoryOk(m) && |dst| == ADDR_LEN && typ < TYPES
      modifies this`sent, this`delivered
      ensures Valid() && Spec() == old(Spec())
      ensures Did(old(sent), old(delivered), SendTyped(scheme, Spec(), m, dst, typ, payload))
      decreases PingRank(typ), 2
    {
      var p := new Packet.Pack(dst, self, typ, payload);
      if key.Some? {
        p.SignWith(scheme, key.value);
      }
      DoForward(p, m);
    }

    method DoReceive(datagram: seq<byte>, m: Memory)
      requires Valid() && MemoryOk(m)
      modifies this`sent, this`delivered
      ensures Valid() && Spec() == old(Spec())
      ensures Did(old(sent), old(delivered), Receive(scheme, Spec(), m, datagram))
    {
      var p := Packet.Recv(datagram);
      if p == null {
        return;
      }
      if checkSign {
        var ok := p.CheckSign(scheme);
        if !ok {
          return;
        }
      }
      DoForward(p, m);
    }
  }
}
