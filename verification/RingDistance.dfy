/** The ring distance: a byte-wise borrow subtraction folded by a one's complement. */
module RingDistance {
  import opened Numerals
  import opened Address

  /** The byte subtracted: 0xFF with a borrow wraps to 0. */
  function Subtrahend(y: byte, carry: nat): byte {
    (y + carry) % 256
  }

  function DigitOf(x: byte, y: byte, carry: nat): byte {
    (x - Subtrahend(y, carry)) % 256
  }

  function BorrowOf(x: byte, y: byte, carry: nat): (c: nat)
    ensures c <= 1
  {
    if Subtrahend(y, carry) > x then 1 else 0
  }

  /** a - b, least significant byte last, with the borrow left over. A byte of b at 0xFF wraps
      to 0 when a borrow arrives, and that borrow is then forgotten. */
  function Sub(a: Addr, b: Addr): (r: (Addr, nat))
    requires |a| == |b|
    ensures |r.0| == |a| && r.1 <= 1
  {
    if a == [] then ([], 0)
    else
      var (rest, carry) := Sub(a[1..], b[1..]);
      ([DigitOf(a[0], b[0], carry)] + rest, BorrowOf(a[0], b[0], carry))
  }

  /** The borrow that reaches the head of a longer pair from its tail. */
  function BorrowIn(a: Addr, b: Addr): nat
    requires |a| == |b| > 0
  {
    Sub(a[1..], b[1..]).1
  }

  lemma SubStep(a: Addr, b: Addr)
    requires |a| == |b| > 0
    ensures Sub(a, b).0[0] == DigitOf(a[0], b[0], BorrowIn(a, b))
    ensures Sub(a, b).0[1..] == Sub(a[1..], b[1..]).0
    ensures Sub(a, b).1 == BorrowOf(a[0], b[0], BorrowIn(a, b))
  {
  }

  lemma EqualParts(s: Addr, t: Addr)
    requires |s| == |t| > 0
    ensures s == t <==> s[0] == t[0] && s[1..] == t[1..]
  {
    assert s == [s[0]] + s[1..] && t == [t[0]] + t[1..];
  }

  function Negate(s: Addr): (r: Addr)
    ensures |r| == |s|
  {
    seq(|s|, i requires 0 <= i < |s| => 255 - s[i])
  }

  function Dist(a: Addr, b: Addr): (d: Addr)
    requires |a| == |b| > 0
    ensures |d| == |a|
  {
    var sub := Sub(a, b).0;
    if sub[0] >= 128 then Negate(sub) else sub
  }

  method NegateBytes(s: array<byte>)
    modifies s
    ensures s[..] == Negate(old(s[..]))
  {
    var i := 0;
    while i < s.Length
      invariant 0 <= i <= s.Length
      invariant forall j :: 0 <= j < i ==> s[j] == 255 - old(s[j])
      invariant forall j :: i <= j < s.Length ==> s[j] == old(s[j])
    {
      s[i] := 255 - s[i];
      i := i + 1;
    }
  }

  method Distance(a: Addr, b: Addr) returns (dist: Addr)
    requires |a| == |b| > 0
    ensures dist == Dist(a, b)
  {
    var n := |a|;
    var sub := new byte[n];
    var carry: nat := 0;
    var i := n;
    assert sub[n..] == a[n..] == b[n..] == [];
    while i > 0
      invariant 0 <= i <= n
      invariant sub[i..] == Sub(a[i..], b[i..]).0 && carry == Sub(a[i..], b[i..]).1
    {
      ghost var rest := sub[i..];
      i := i - 1;
      assert a[i..][1..] == a[i + 1..] && b[i..][1..] == b[i + 1..];
      SubStep(a[i..], b[i..]);
      sub[i], carry := DigitOf(a[i], b[i], carry), BorrowOf(a[i], b[i], carry);
      assert sub[i..][1..] == rest;
      EqualParts(sub[i..], Sub(a[i..], b[i..]).0);
    }
    assert a[0..] == a && b[0..] == b && sub[0..] == sub[..];
    if sub[0] >= 128 {
      NegateBytes(sub);
    }
    return sub[..];
  }

  //// What the subtraction computes

  /** Total weight of the borrows the subtraction forgets. */
  function Lost(a: Addr, b: Addr): nat
    requires |a| == |b|
  {
    if a == [] then 0
    else Lost(a[1..], b[1..]) + if b[0] == 255 && BorrowIn(a, b) == 1 then Ring(|a|) else 0
  }

  /** The subtraction is exact up to its final borrow and the forgotten ones, for all inputs. */
  lemma {:induction false} SubValue(a: Addr, b: Addr)
    requires |a| == |b|
    ensures var (d, carry) := Sub(a, b);
            Num(d) == Num(a) - Num(b) + carry * Ring(|a|) + Lost(a, b)
  {
    if a != [] {
      var p := Ring(|a| - 1);
      var c := BorrowIn(a, b);
      var (d, carry) := Sub(a, b);
      SubValue(a[1..], b[1..]);
      SubStep(a, b);
      HeadDigit(a[0], b[0], c, p);
      NumHead(d);
      assert Ring(|a|) == 256 * p;
    }
  }

  /** The difference digit in full: what it borrows, and what is lost, counts 256 each. */
  lemma DigitIs(a: byte, b: byte, c: nat)
    requires c <= 1
    ensures DigitOf(a, b, c) as int
              == a as int - b as int - c + 256 * (BorrowOf(a, b, c) + if b == 255 && c == 1 then 1 else 0)
  {
  }

  lemma HeadDigit(a: byte, b: byte, c: nat, p: nat)
    requires c <= 1
    ensures DigitOf(a, b, c) * p
              == a * p - b * p - c * p + BorrowOf(a, b, c) * (256 * p) + if b == 255 && c == 1 then 256 * p else 0
  {
    DigitIs(a, b, c);
    Expand(a, b, c, BorrowOf(a, b, c) + if b == 255 && c == 1 then 1 else 0, p);
  }

  lemma Expand(a: int, b: int, c: int, k: int, p: nat)
    ensures (a - b - c + 256 * k) * p == a * p - b * p - c * p + k * (256 * p)
  {
  }

  /** A position's borrow is forgotten when its byte of b is 0xFF and the lower bytes of a are
      below those of b. Byte 0 is exempt: nothing is left above it. */
  ghost predicate LosesAt(a: Addr, b: Addr, i: nat)
    requires |a| == |b| && i < |a|
  {
    b[i] == 255 && Num(a[i + 1..]) < Num(b[i + 1..])
  }

  ghost predicate NoLostBorrow(a: Addr, b: Addr)
    requires |a| == |b|
  {
    forall i :: 1 <= i < |a| ==> !LosesAt(a, b, i)
  }

  lemma {:induction false} LostBound(a: Addr, b: Addr)
    requires |a| == |b|
    ensures Lost(a, b) <= 2 * Ring(|a|)
    ensures Lost(a, b) % 256 == 0
  {
    if a != [] {
      LostBound(a[1..], b[1..]);
      RingSplits(|a|);
      LostStep(Lost(a[1..], b[1..]), Ring(|a| - 1), b[0] == 255 && BorrowIn(a, b) == 1);
    }
  }

  lemma LostStep(l: nat, p: nat, forgotten: bool)
    requires l <= 2 * p && l % 256 == 0
    ensures var all := l + if forgotten then 256 * p else 0;
            all <= 2 * (256 * p) && all % 256 == 0
  {
    AddMultiple(l, p);
  }

  lemma AddMultiple(l: int, p: int)
    requires l % 256 == 0
    ensures (l + 256 * p) % 256 == 0
  {
    var q := l / 256 + p;
    assert l + 256 * p == 256 * q;
  }

  /** While nothing has been lost, the running borrow is the true one. */
  lemma {:induction false} CarryIsTrue(a: Addr, b: Addr)
    requires |a| == |b| && Lost(a, b) == 0
    ensures Sub(a, b).1 == 1 <==> Num(a) < Num(b)
  {
    SubValue(a, b);
    NumBound(a);
    NumBound(b);
    NumBound(Sub(a, b).0);
    if Sub(a, b).1 == 1 {
      assert 1 * Ring(|a|) == Ring(|a|);
    } else {
      assert Sub(a, b).1 == 0 && 0 * Ring(|a|) == 0;
    }
  }

  /** Nothing is lost exactly when no position, byte 0 included, meets the condition. */
  lemma {:induction false} NothingLostIff(a: Addr, b: Addr)
    requires |a| == |b|
    ensures Lost(a, b) == 0 <==> forall i :: 0 <= i < |a| ==> !LosesAt(a, b, i)
  {
    if a != [] {
      var at, bt := a[1..], b[1..];
      NothingLostIff(at, bt);
      PowPositive(256, |a|);
      forall i | 1 <= i < |a| ensures LosesAt(a, b, i) <==> LosesAt(at, bt, i - 1) {
        assert a[i + 1..] == at[i..] && b[i + 1..] == bt[i..];
      }
      if Lost(at, bt) == 0 {
        CarryIsTrue(at, bt);
        assert Sub(at, bt).1 == 1 <==> Num(at) < Num(bt);
        assert b[0] == 255 && BorrowIn(a, b) == 1 <==> LosesAt(a, b, 0);
      } else {
        var i :| 0 <= i < |at| && LosesAt(at, bt, i);
        assert LosesAt(a, b, i + 1);
      }
    }
  }

  lemma NoLostBorrowIff(a: Addr, b: Addr)
    requires |a| == |b| > 0
    ensures NoLostBorrow(a, b) <==> Lost(a[1..], b[1..]) == 0
  {
    var at, bt := a[1..], b[1..];
    NothingLostIff(at, bt);
    forall i | 1 <= i < |a| ensures LosesAt(a, b, i) <==> LosesAt(at, bt, i - 1) {
      assert a[i + 1..] == at[i..] && b[i + 1..] == bt[i..];
    }
    if !NoLostBorrow(a, b) {
      var i :| 1 <= i < |a| && LosesAt(a, b, i);
      assert LosesAt(at, bt, i - 1);
    }
    if Lost(at, bt) != 0 {
      var i :| 0 <= i < |at| && LosesAt(at, bt, i);
      assert LosesAt(a, b, i + 1);
    }
  }

  //// The distance on integers

  /** x - y on a ring of m positions. */
  function Offset(x: nat, y: nat, m: nat): nat
    requires x < m && y < m
  {
    if y <= x then x - y else x - y + m
  }

  /** The fold the code applies: one short on the negative side. */
  function Fold(d: nat, m: nat): nat
    requires d < m
  {
    if 2 * d < m then d else m - 1 - d
  }

  /** What `Dist` amounts to while no borrow is lost. */
  function FoldDist(x: nat, y: nat, m: nat): nat
    requires x < m && y < m
  {
    Fold(Offset(x, y, m), m)
  }

  /** The distance the documentation means: the shorter way round the ring. */
  function RingDist(x: nat, y: nat, m: nat): nat
    requires x < m && y < m
  {
    var d := Offset(x, y, m);
    if 2 * d < m then d else m - d
  }

  lemma {:induction false} NegateValue(s: Addr)
    ensures Num(Negate(s)) == Ring(|s|) - 1 - Num(s)
  {
    if s != [] {
      NegateValue(s[1..]);
      assert Negate(s)[1..] == Negate(s[1..]);
      HeadComplement(s[0], Ring(|s| - 1));
    }
  }

  lemma HeadComplement(x: byte, p: nat)
    ensures (255 - x) * p == 256 * p - p - x * p
  {
  }

  lemma TopBit(s: Addr)
    requires s != []
    ensures s[0] >= 128 <==> 2 * Num(s) >= Ring(|s|)
  {
    var p := Ring(|s| - 1);
    NumBound(s[1..]);
    if s[0] >= 128 {
      Scale(128, s[0], p);
    } else {
      Scale(s[0] + 1, 128, p);
      assert (s[0] + 1) * p == s[0] * p + p;
    }
  }

  /** The integer a distance stands for. */
  function DistNum(a: Addr, b: Addr): nat
    requires |a| == |b| > 0
  {
    Num(Dist(a, b))
  }

  lemma DistIsFolded(a: Addr, b: Addr)
    requires |a| == |b| > 0
    ensures Num(Sub(a, b).0) < Ring(|a|)
    ensures DistNum(a, b) == Fold(Num(Sub(a, b).0), Ring(|a|))
  {
    var d := Sub(a, b).0;
    NumBound(d);
    TopBit(d);
    NegateValue(d);
  }

  /** For all inputs: the subtraction's value modulo the ring, forgotten borrows included. */
  lemma SubModuloRing(a: Addr, b: Addr)
    requires |a| == |b| > 0
    ensures Num(a) < Ring(|a|) && Num(b) < Ring(|a|)
    ensures var l := Lost(a[1..], b[1..]);
            l < Ring(|a|) && l % 256 == 0
    ensures var m, d, o, l := Ring(|a|), Num(Sub(a, b).0), Offset(Num(a), Num(b), Ring(|a|)), Lost(a[1..], b[1..]);
            d == o + l || d == o + l - m
  {
    var m, carry := Ring(|a|), Sub(a, b).1;
    SubValue(a, b);
    LostBound(a[1..], b[1..]);
    RingSplits(|a|);
    NumBound(a);
    NumBound(b);
    NumBound(Sub(a, b).0);
    ReduceOnce(Num(Sub(a, b).0), Num(a), Num(b), carry, Lost(a[1..], b[1..]), Lost(a, b), m);
  }

  lemma ReduceOnce(d: int, x: int, y: int, carry: nat, l: int, all: int, m: int)
    requires 0 <= d < m && 0 <= x < m && 0 <= y < m && carry <= 1 && 0 <= l < m
    requires all == l || all == l + m
    requires d == x - y + carry * m + all
    ensures var o := if y <= x then x - y else x - y + m;
            d == o + l || d == o + l - m
  {
    assert carry * m == if carry == 1 then m else 0;
  }

  /** The code's distance is the folded ring offset exactly when no borrow is lost. */
  lemma DistExactIff(a: Addr, b: Addr)
    requires |a| == |b| > 0
    ensures Num(a) < Ring(|a|) && Num(b) < Ring(|a|)
    ensures DistNum(a, b) == FoldDist(Num(a), Num(b), Ring(|a|)) <==> NoLostBorrow(a, b)
  {
    DistIsFolded(a, b);
    SubModuloRing(a, b);
    NoLostBorrowIff(a, b);
    RingSplits(|a|);
    Parity(Lost(a[1..], b[1..]), Ring(|a| - 1));
    FoldEqualIff(Num(Sub(a, b).0), Offset(Num(a), Num(b), Ring(|a|)), Lost(a[1..], b[1..]), Ring(|a|));
  }

  lemma FoldEqualIff(d: nat, o: nat, l: nat, m: nat)
    requires d < m && o < m && l < m && (d == o + l || d == o + l - m)
    requires l % 2 == 0 && m % 2 == 0
    ensures Fold(d, m) == Fold(o, m) <==> l == 0
  {
  }

  lemma Parity(l: nat, p: nat)
    requires l % 256 == 0
    ensures l % 2 == 0 && (256 * p) % 2 == 0
  {
    assert l == 256 * (l / 256);
    EvenMultiple(l / 256);
    EvenMultiple(p);
  }

  lemma EvenMultiple(q: int)
    ensures (256 * q) % 2 == 0
  {
    assert 256 * q == 2 * (128 * q);
  }

  /** One short of the intended distance on the negative side, equal on the other. */
  lemma FoldVersusRing(x: nat, y: nat, m: nat)
    requires x < m && y < m && m % 2 == 0
    ensures FoldDist(x, y, m) == RingDist(x, y, m) - if 2 * Offset(x, y, m) < m then 0 else 1
  {
  }

  //// Which destinations are safe

  /** No 0xFF byte past the first is followed by a non-zero byte. */
  ghost predicate BorrowSafe(b: Addr) {
    forall i, j :: 1 <= i < j < |b| && b[i] == 255 ==> b[j] == 0
  }

  lemma {:induction false} ZeroIff(s: Addr)
    ensures Num(s) == 0 <==> forall j :: 0 <= j < |s| ==> s[j] == 0
  {
    if s != [] {
      var p := Ring(|s| - 1);
      PowPositive(256, |s| - 1);
      ZeroIff(s[1..]);
      if s[0] > 0 {
        Scale(1, s[0], p);
      }
      assert (forall j :: 0 <= j < |s| ==> s[j] == 0) <==>
             s[0] == 0 && forall j :: 0 <= j < |s[1..]| ==> s[1..][j] == 0 by {
        assert s == [s[0]] + s[1..];
      }
    }
  }

  /** A destination is measured exactly from everywhere iff it is borrow-safe. */
  lemma ExactFromEverywhereIff(b: Addr)
    requires b != []
    ensures (forall a: Addr | |a| == |b| :: NoLostBorrow(a, b)) <==> BorrowSafe(b)
  {
    if BorrowSafe(b) {
      forall a: Addr | |a| == |b| ensures NoLostBorrow(a, b) {
        forall i | 1 <= i < |a| && b[i] == 255 ensures !LosesAt(a, b, i) {
          ZeroIff(b[i + 1..]);
        }
      }
    } else {
      var i, j :| 1 <= i < j < |b| && b[i] == 255 && b[j] != 0;
      var zero: Addr := seq(|b|, _ => 0);
      ZeroIff(zero[i + 1..]);
      ZeroIff(b[i + 1..]);
      assert b[i + 1..][j - i - 1] == b[j];
      assert LosesAt(zero, b, i);
    }
  }
}
