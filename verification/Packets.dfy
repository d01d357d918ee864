/** Packets: the header and payload buffer, its signed region and its bytes on the wire. */
module Packets {
  import opened Options
  import opened Address

  const ADDR_LEN: nat := 32
  const SIGN_LEN: nat := 64
  const OFFSET_SIGN: nat := 3 + ADDR_LEN
  const OFFSET_DST: nat := OFFSET_SIGN + SIGN_LEN
  const HEADER_SIZE: nat := 132
  const DEFAULT_TTL: byte := 32
  const MAX_LEN: nat := 1000
  const LEN_WIDTH: nat := 0x1_0000

  /** A packet as a value; data is the part of the payload the length field covers. */
  datatype Pkt = Pkt(ttl: byte, src: Addr, sign: seq<byte>, dst: Addr, typ: byte, data: seq<byte>)

  ghost predicate Legal(p: Pkt) {
    |p.src| == |p.dst| == ADDR_LEN && |p.sign| == SIGN_LEN && |p.data| < LEN_WIDTH
  }

  /** What the 16-bit length field keeps of a payload. */
  function Truncated(payload: seq<byte>): (r: seq<byte>)
    ensures |r| < LEN_WIDTH && (r == payload <==> |payload| < LEN_WIDTH)
    ensures r <= payload && |r| == |payload| % 65536
  {
    payload[..|payload| % LEN_WIDTH]
  }

  function Packed(dst: Addr, src: Addr, typ: byte, payload: seq<byte>): Pkt {
    Pkt(DEFAULT_TTL, src, Zeros(SIGN_LEN), dst, typ, Truncated(payload))
  }

  /** Signatures, abstractly: only that a check accepts what the matching key signed. */
  datatype Scheme = Scheme(pk: seq<byte> -> Addr,
                           sign: (seq<byte>, seq<byte>) -> seq<byte>,
                           check: (seq<byte>, Addr, seq<byte>) -> bool)
  {
    ghost predicate Correct() {
      forall k, m :: |sign(k, m)| == SIGN_LEN && check(sign(k, m), pk(k), m)
    }
  }

  //// Wire format

  /** The bytes sent: packed header fields, the length little-endian, then the payload. */
  function Encode(p: Pkt): (d: seq<byte>)
    requires Legal(p)
    ensures |d| == HEADER_SIZE + |p.data|
  {
    [|p.data| % 256, |p.data| / 256, p.ttl] + p.src + p.sign + p.dst + [p.typ] + p.data
  }

  function DeclaredLen(d: seq<byte>): nat
    requires |d| >= 2
  {
    d[0] as int + 256 * (d[1] as int)
  }

  /** A datagram is refused when too short for its length field, when that field is over the
      maximum, or when it is shorter than the header and the declared length. */
  function Decode(d: seq<byte>): (r: Option<Pkt>)
    ensures r.Some? ==> Legal(r.value) && |r.value.data| <= MAX_LEN
    ensures r == None <==> |d| < 2 || DeclaredLen(d) > MAX_LEN || |d| < HEADER_SIZE + DeclaredLen(d)
  {
    if |d| < 2 then None
    else
      var len := DeclaredLen(d);
      if len > MAX_LEN || |d| < HEADER_SIZE + len then None
      else Some(Pkt(d[2], d[3..OFFSET_SIGN], d[OFFSET_SIGN..OFFSET_DST], d[OFFSET_DST..HEADER_SIZE - 1],
                    d[HEADER_SIZE - 1], d[HEADER_SIZE..HEADER_SIZE + len]))
  }

  /** A packet not yet signed: time to live 32, a signature of zeros, and the payload cut to 16 bits of
      length. */
  lemma PackedFields(dst: Addr, src: Addr, typ: byte, payload: seq<byte>)
    requires |dst| == |src| == ADDR_LEN
    ensures var p := Packed(dst, src, typ, payload);
            && Legal(p) && p.ttl == 32 && p.src == src && p.dst == dst && p.typ == typ
            && |p.sign| == 64 && (forall i :: 0 <= i < 64 ==> p.sign[i] == 0)
            && p.data == payload[..|payload| % 65536]
  {
    assert Truncated(payload) == payload[..|Truncated(payload)|];
  }

  lemma EncodedFields(p: Pkt)
    requires Legal(p)
    ensures var d := Encode(p);
            && DeclaredLen(d) == |p.data| && d[2] == p.ttl
            && d[3..OFFSET_SIGN] == p.src && d[OFFSET_SIGN..OFFSET_DST] == p.sign
            && d[OFFSET_DST..HEADER_SIZE - 1] == p.dst && d[HEADER_SIZE - 1] == p.typ
            && d[HEADER_SIZE..] == p.data
  {
    var d := Encode(p);
    assert d[..3] == [|p.data| % 256, |p.data| / 256, p.ttl];
    assert d[0] == d[..3][0] && d[1] == d[..3][1] && d[2] == d[..3][2];
  }

  /** The bytes on the wire: payload length little-endian, time to live, source, signature, destination,
      type, payload. */
  lemma WireLayout(p: Pkt)
    requires Legal(p)
    ensures var d := Encode(p);
            && |d| == 132 + |p.data| && d[0] as int + 256 * d[1] as int == |p.data| && d[2] == p.ttl
            && d[3..35] == p.src && d[35..99] == p.sign && d[99..131] == p.dst && d[131] == p.typ
            && d[132..] == p.data
  {
    EncodedFields(p);
  }

  /** A packet survives the wire exactly when its payload is within the maximum. */
  lemma WireRoundTripIff(p: Pkt)
    requires Legal(p)
    ensures Decode(Encode(p)) == if |p.data| <= 1000 then Some(p) else None
  {
    EncodedFields(p);
    assert Encode(p)[HEADER_SIZE..HEADER_SIZE + |p.data|] == Encode(p)[HEADER_SIZE..];
  }

  /** Whatever the payload's size, it arrives whole iff it has at most 1000 bytes; the wrapped
      length of a huge one delivers at most a prefix. */
  lemma PayloadArrivesIff(dst: Addr, src: Addr, typ: byte, payload: seq<byte>)
    requires |dst| == |src| == ADDR_LEN
    ensures var r := Decode(Encode(Packed(dst, src, typ, payload)));
            && (r.Some? && r.value.data == payload <==> |payload| <= 1000)
            && (r.Some? ==> r.value.data <= payload)
  {
    WireRoundTripIff(Packed(dst, src, typ, payload));
  }

  lemma SliceOfConcat(d: seq<byte>, extra: seq<byte>, i: nat, j: nat)
    requires i <= j <= |d|
    ensures (d + extra)[i..j] == d[i..j]
  {
  }

  /** Bytes after an accepted datagram are ignored. */
  lemma TrailingBytesIgnored(d: seq<byte>, extra: seq<byte>)
    requires Decode(d).Some?
    ensures Decode(d + extra) == Decode(d)
  {
    var n := DeclaredLen(d);
    assert DeclaredLen(d + extra) == n;
    SliceOfConcat(d, extra, 3, OFFSET_SIGN);
    SliceOfConcat(d, extra, OFFSET_SIGN, OFFSET_DST);
    SliceOfConcat(d, extra, OFFSET_DST, HEADER_SIZE - 1);
    SliceOfConcat(d, extra, HEADER_SIZE, HEADER_SIZE + n);
  }

  lemma LengthBytes(lo: byte, hi: byte)
    ensures var n := lo as int + 256 * (hi as int);
            n % 256 == lo && n / 256 == hi
  {
  }

  lemma HeaderPieces(d: seq<byte>, n: nat)
    requires HEADER_SIZE + n <= |d|
    ensures d[..HEADER_SIZE + n]
            == [d[0], d[1], d[2]] + d[3..OFFSET_SIGN] + d[OFFSET_SIGN..OFFSET_DST]
               + d[OFFSET_DST..HEADER_SIZE - 1] + [d[HEADER_SIZE - 1]] + d[HEADER_SIZE..HEADER_SIZE + n]
  {
  }

  /** Conversely, an accepted datagram starts with the encoding of the packet read from it, and
      bytes after that are ignored. */
  lemma EncodeDecoded(d: seq<byte>, extra: seq<byte>)
    requires Decode(d).Some?
    ensures var p := Decode(d).value;
            && Encode(p) == d[..HEADER_SIZE + |p.data|]
            && Decode(d + extra) == Decode(d)
  {
    LengthBytes(d[0], d[1]);
    HeaderPieces(d, |Decode(d).value.data|);
    TrailingBytesIgnored(d, extra);
  }

  //// The signed region

  /** The bytes signed: from the destination field on, as many as the length arithmetic says. */
  function SignedBytes(p: Pkt): seq<byte>
    requires Legal(p)
  {
    var len := |p.data| + HEADER_SIZE - OFFSET_SIGN - SIGN_LEN;
    Encode(p)[OFFSET_DST..OFFSET_DST + len]
  }

  /** They are exactly destination, type and payload. */
  lemma SignedRegion(p: Pkt)
    requires Legal(p)
    ensures SignedBytes(p) == p.dst + [p.typ] + p.data
  {
    EncodedFields(p);
    var d := Encode(p);
    assert d[OFFSET_DST..] == d[OFFSET_DST..HEADER_SIZE - 1] + [d[HEADER_SIZE - 1]] + d[HEADER_SIZE..];
  }

  ghost predicate Checks(c: Scheme, p: Pkt)
    requires Legal(p)
  {
    c.check(p.sign, p.src, SignedBytes(p))
  }

  function WithSignature(c: Scheme, key: seq<byte>, p: Pkt): Pkt
    requires Legal(p)
  {
    p.(sign := c.sign(key, SignedBytes(p)))
  }

  /** A packet checks when its source's key accepts its signature for destination, type and payload. */
  lemma ChecksIff(c: Scheme, p: Pkt)
    requires Legal(p)
    ensures Checks(c, p) <==> c.check(p.sign, p.src, p.dst + [p.typ] + p.data)
  {
    SignedRegion(p);
  }

  /** Neither the time to live nor the signature field is signed. */
  lemma UnsignedFields(p: Pkt, ttl: byte, sign: seq<byte>)
    requires Legal(p) && |sign| == SIGN_LEN
    ensures Legal(p.(ttl := ttl, sign := sign)) && SignedBytes(p.(ttl := ttl, sign := sign)) == SignedBytes(p)
  {
    SignedRegion(p);
    SignedRegion(p.(ttl := ttl, sign := sign));
  }

  /** A signed packet checks at any time to live, if its source is the public key of the signer. */
  lemma SignedChecks(c: Scheme, key: seq<byte>, p: Pkt, ttl: byte)
    requires c.Correct() && Legal(p) && p.src == c.pk(key)
    ensures Legal(WithSignature(c, key, p)) && Checks(c, WithSignature(c, key, p).(ttl := ttl))
  {
    UnsignedFields(p, ttl, c.sign(key, SignedBytes(p)));
  }

  //// The packet object

  class Packet {
    var len: nat
    var ttl: byte
    var src: Addr
    var sign: seq<byte>
    var dst: Addr
    var typ: byte
    const payload: array<byte>

    ghost predicate Valid()
      reads this, payload
    {
      len < payload.Length && Legal(Value())
    }

    ghost function Value(): Pkt
      requires len < payload.Length
      reads this, payload
    {
      Pkt(ttl, src, sign, dst, typ, payload[..len])
    }

    /** A packet ready for sending, unsigned; the payload is copied and zero-terminated. */
    constructor Pack(dst: Addr, src: Addr, typ: byte, bytes: seq<byte>)
      requires |dst| == |src| == ADDR_LEN
      ensures Valid() && fresh(payload) && Value() == Packed(dst, src, typ, bytes)
      ensures payload[..] == bytes + [0]
    {
      payload := new byte[|bytes| + 1](i requires 0 <= i <= |bytes| => if i < |bytes| then bytes[i] else 0);
      len := |bytes| % LEN_WIDTH;
      ttl, this.typ := DEFAULT_TTL, typ;
      this.src, this.dst, sign := src, dst, Zeros(SIGN_LEN);
      new;
      assert payload[..len] == Truncated(bytes);
    }

    /** A packet over a received datagram; null when the datagram is refused. */
    static method Recv(datagram: seq<byte>) returns (p: Packet?)
      ensures p == null <==> Decode(datagram) == None
      ensures p != null ==>
                && fresh(p) && fresh(p.payload) && p.Valid()
                && Some(p.Value()) == Decode(datagram) && p.payload[p.len] == 0
    {
      if |datagram| < 2 {
        return null;
      }
      var n := datagram[0] as int + 256 * (datagram[1] as int);
      if n > MAX_LEN || |datagram| < HEADER_SIZE + n {
        return null;
      }
      p := new Packet.Pack(datagram[OFFSET_DST..HEADER_SIZE - 1], datagram[3..OFFSET_SIGN], datagram[HEADER_SIZE - 1],
                           datagram[HEADER_SIZE..HEADER_SIZE + n]);
      p.ttl := datagram[2];
      p.sign := datagram[OFFSET_SIGN..OFFSET_DST];
    }

    method SignWith(c: Scheme, key: seq<byte>)
      requires Valid() && c.Correct()
      modifies this`sign
      ensures Valid() && Value() == WithSignature(c, key, old(Value()))
    {
      sign := c.sign(key, SignedRegionOf());
    }

    function SignedRegionOf(): (r: seq<byte>)
      requires Valid()
      reads this, payload
      ensures r == SignedBytes(Value())
    {
      SignedRegion(Value());
      dst + [typ] + payload[..len]
    }

    method CheckSign(c: Scheme) returns (ok: bool)
      requires Valid()
      ensures ok <==> Checks(c, Value())
      ensures ok <==> c.check(sign, src, dst + [typ] + payload[..len])
    {
      SignedRegion(Value());
      ok := c.check(sign, src, SignedRegionOf());
    }

    method Send() returns (datagram: seq<byte>)
      requires Valid()
      ensures datagram == Encode(Value())
    {
      datagram := [len % 256, len / 256, ttl] + src + sign + dst + [typ] + payload[..len];
    }
  }
}
