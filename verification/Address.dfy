/** Overlay addresses: byte strings compared, subtracted and split into nibbles byte by byte. */
module Address {
  import opened Numerals

  type byte = x: int | 0 <= x < 256

  /** An address key. Its length is a parameter; the network uses 32 bytes. */
  type Addr = seq<byte>

  function Zeros(n: nat): (a: Addr)
    ensures |a| == n && forall i :: 0 <= i < n ==> a[i] == 0
  {
    seq(n, _ => 0)
  }

  /** The integer an address stands for. */
  function Num(a: Addr): nat {
    Val(256, a)
  }

  /** Number of addresses of n bytes: the size of the ring. */
  function Ring(n: nat): nat {
    Pow(256, n)
  }

  lemma RingSplits(n: nat)
    requires n > 0
    ensures Ring(n) == 256 * Ring(n - 1) && Ring(n - 1) > 0
  {
    PowPositive(256, n - 1);
  }

  lemma NumBound(a: Addr)
    ensures Num(a) < Ring(|a|)
  {
    ValBound(256, a);
  }

  lemma NumHead(d: Addr)
    requires d != []
    ensures Num(d) == d[0] * Ring(|d| - 1) + Num(d[1..])
  {
  }

  lemma NumInjective(a: Addr, b: Addr)
    requires |a| == |b|
    ensures Num(a) == Num(b) <==> a == b
  {
    FirstDifferenceOrders(256, a, b);
  }

  /** Every position of the ring has an address. */
  lemma {:induction false} NumOnto(v: nat, n: nat) returns (a: Addr)
    requires v < Ring(n)
    ensures |a| == n && Num(a) == v
  {
    if n == 0 {
      a := [];
    } else {
      RingSplits(n);
      var q, r := SplitHead(v, Ring(n - 1));
      var rest := NumOnto(r, n - 1);
      a := [q] + rest;
      assert a[1..] == rest;
    }
  }

  lemma SplitHead(v: nat, p: nat) returns (q: byte, r: nat)
    requires 0 < p && v < 256 * p
    ensures r < p && v == q * p + r
  {
    var d := v / p;
    r := v % p;
    assert v == d * p + r;
    if d >= 256 {
      Scale(256, d, p);
    }
    q := d;
  }

  //// Comparison

  /** The difference of the first two bytes that differ, 0 if there are none. */
  function Cmp(a: Addr, b: Addr): int
    requires |a| == |b|
  {
    var k := Shared(a, b);
    if k == |a| then 0 else a[k] as int - b[k] as int
  }

  method Compare(a: Addr, b: Addr) returns (d: int)
    requires |a| == |b|
    ensures d == Cmp(a, b)
    ensures var k := Shared(a, b); d == if k < |a| then a[k] as int - b[k] as int else 0
  {
    var i := 0;
    while i < |a|
      invariant 0 <= i <= |a| && a[..i] == b[..i]
    {
      d := a[i] as int - b[i] as int;
      if d != 0 {
        SharedIs(a, b, i);
        return d;
      }
      i := i + 1;
    }
    SharedIs(a, b, i);
    return 0;
  }

  /** The byte comparison is the comparison of the integers. */
  lemma CmpIsNumericOrder(a: Addr, b: Addr)
    requires |a| == |b|
    ensures Cmp(a, b) < 0 <==> Num(a) < Num(b)
    ensures Cmp(a, b) > 0 <==> Num(a) > Num(b)
    ensures Cmp(a, b) == 0 <==> a == b
    ensures Cmp(b, a) < 0 <==> Num(b) < Num(a)
  {
    FirstDifferenceOrders(256, a, b);
    FirstDifferenceOrders(256, b, a);
    SharedIs(b, a, Shared(a, b));
  }

  //// Nibbles and the table index

  function Nibbles(a: Addr): (h: seq<nat>)
    ensures |h| == 2 * |a| && Digits(16, h)
  {
    seq(2 * |a|, i requires 0 <= i < 2 * |a| => if i % 2 == 0 then a[i / 2] / 16 else a[i / 2] % 16)
  }

  lemma NibblesUnfold(a: Addr)
    requires a != []
    ensures Nibbles(a) == [a[0] / 16, a[0] % 16] + Nibbles(a[1..])
  {
    var h, t := Nibbles(a), Nibbles(a[1..]);
    forall i | 2 <= i < |h| ensures h[i] == t[i - 2] {
      assert (i - 2) / 2 == i / 2 - 1 && (i - 2) % 2 == i % 2;
    }
  }

  lemma NibbleRing(n: nat)
    ensures Pow(16, 2 * n) == Ring(n)
  {
    if n > 0 {
      NibbleRing(n - 1);
      assert Pow(16, 2 * n) == 16 * (16 * Pow(16, 2 * n - 2));
    }
  }

  /** Reading the nibbles in base 16 gives the same integer as reading the bytes in base 256. */
  lemma {:induction false} NibblesKeepNum(a: Addr)
    ensures Val(16, Nibbles(a)) == Num(a)
  {
    if a != [] {
      var h, p := Nibbles(a), Pow(16, 2 * |a| - 2);
      NibblesUnfold(a);
      NibblesKeepNum(a[1..]);
      NibbleRing(|a| - 1);
      assert h[1..][1..] == Nibbles(a[1..]);
      assert Val(16, h) == h[0] * (16 * p) + (h[1] * p + Val(16, h[1..][1..]));
      Regroup(a[0] / 16, a[0] % 16, p);
    }
  }

  lemma Regroup(hi: nat, lo: nat, p: nat)
    ensures hi * (16 * p) + lo * p == (16 * hi + lo) * p
  {
  }

  lemma NibblesInjective(a: Addr, b: Addr)
    requires |a| == |b| && Nibbles(a) == Nibbles(b)
    ensures a == b
  {
    NibblesKeepNum(a);
    NibblesKeepNum(b);
    NumInjective(a, b);
  }

  /** Number of leading nibbles a and b have in common. */
  function Level(a: Addr, b: Addr): (l: nat)
    requires |a| == |b|
    ensures l <= 2 * |a|
  {
    Shared(Nibbles(a), Nibbles(b))
  }

  /** The first nibble of b that differs from a's, 255 when there is none. */
  function Column(a: Addr, b: Addr): (c: nat)
    requires |a| == |b|
    ensures Level(a, b) < 2 * |a| ==> c < 16 && c == Nibbles(b)[Level(a, b)]
    ensures Level(a, b) == 2 * |a| ==> c == 255
  {
    var l := Level(a, b);
    if l < 2 * |a| then Nibbles(b)[l] else 255
  }

  method ToNibbles(bytes: Addr, hex: array<nat>)
    requires hex.Length == 2 * |bytes|
    modifies hex
    ensures hex[..] == Nibbles(bytes)
  {
    var i := 0;
    while i < |bytes|
      invariant 0 <= i <= |bytes|
      invariant forall j :: 0 <= j < 2 * i ==> hex[j] == Nibbles(bytes)[j]
    {
      var c := bytes[i];
      hex[2 * i] := c / 16;
      hex[2 * i + 1] := c % 16;
      i := i + 1;
    }
  }

  method Index(self: Addr, addr: Addr) returns (level: nat, column: nat)
    requires |self| == |addr|
    ensures level == Level(self, addr) && column == Column(self, addr)
  {
    var hexA, hexB := new nat[2 * |self|], new nat[2 * |self|];
    ToNibbles(self, hexA);
    ToNibbles(addr, hexB);
    assert hexA[..] == Nibbles(self);
    level, column := 0, 255;
    var i := 0;
    while i < 2 * |self|
      invariant 0 <= i == level <= 2 * |self| && column == 255
      invariant hexA[..i] == hexB[..i]
      invariant hexA[..] == Nibbles(self) && hexB[..] == Nibbles(addr)
    {
      assert hexA[i] == hexA[..][i] && hexB[i] == hexB[..][i];
      assert Nibbles(self)[..i] == hexA[..i] && Nibbles(addr)[..i] == hexB[..i];
      if hexA[i] == hexB[i] {
        level := level + 1;
      } else {
        column := hexB[i];
        SharedIs(Nibbles(self), Nibbles(addr), i);
        return;
      }
      i := i + 1;
    }
    assert Nibbles(self)[..i] == hexA[..i] && Nibbles(addr)[..i] == hexB[..i];
    SharedIs(Nibbles(self), Nibbles(addr), i);
  }

  /** Integer order, byte comparison and the nibbles at the table level all agree. */
  lemma OrdersAgree(self: Addr, addr: Addr)
    requires |self| == |addr| && self != addr
    ensures Level(self, addr) < 2 * |self| && Column(self, addr) < 16
    ensures Column(self, addr) != Nibbles(self)[Level(self, addr)]
    ensures Cmp(addr, self) < 0 <==> Column(self, addr) < Nibbles(self)[Level(self, addr)]
    ensures Cmp(addr, self) > 0 <==> Column(self, addr) > Nibbles(self)[Level(self, addr)]
  {
    NibblesKeepNum(self);
    NibblesKeepNum(addr);
    CmpIsNumericOrder(addr, self);
    NumInjective(addr, self);
    FirstDifferenceOrders(16, Nibbles(self), Nibbles(addr));
  }

  lemma LevelSymmetric(a: Addr, b: Addr)
    requires |a| == |b|
    ensures Level(a, b) == Level(b, a)
    ensures Level(a, b) == 2 * |a| <==> a == b
  {
    var l := Level(a, b);
    SharedIs(Nibbles(b), Nibbles(a), l);
    if l == 2 * |a| {
      assert Nibbles(a) == Nibbles(a)[..l] == Nibbles(b)[..l] == Nibbles(b);
      NibblesInjective(a, b);
    }
  }

  lemma ShorterPrefix(s: seq<nat>, t: seq<nat>, k: nat, m: nat)
    requires m <= k <= |s| == |t| && s[..k] == t[..k]
    ensures s[..m] == t[..m]
  {
    assert s[..m] == s[..k][..m] && t[..m] == t[..k][..m];
  }

  lemma LongerPrefix(s: seq<nat>, t: seq<nat>, m: nat)
    requires m < |s| == |t| && s[..m] == t[..m] && s[m] == t[m]
    ensures s[..m + 1] == t[..m + 1]
  {
    assert s[..m + 1] == s[..m] + [s[m]] && t[..m + 1] == t[..m] + [t[m]];
  }

  /** Common prefixes chain: b and c share at least what a shares with both. */
  lemma LevelChains(a: Addr, b: Addr, c: Addr, m: nat)
    requires |a| == |b| == |c|
    requires m <= Level(a, b) && m <= Level(a, c)
    ensures m <= Level(b, c)
    ensures m < 2 * |a| && Nibbles(b)[m] == Nibbles(c)[m] ==> m < Level(b, c)
  {
    var ha, hb, hc := Nibbles(a), Nibbles(b), Nibbles(c);
    ShorterPrefix(ha, hb, Level(a, b), m);
    ShorterPrefix(ha, hc, Level(a, c), m);
    SharedIs(hb, hc, m);
    if m < 2 * |a| && hb[m] == hc[m] {
      LongerPrefix(hb, hc, m);
      SharedIs(hb, hc, m + 1);
    }
  }
}
