/** How a shared nibble prefix bounds the distance, for the subtraction as it is written. */
module PrefixDistance {
  import opened Numerals
  import opened Address
  import opened RingDistance

  /** A borrow reaches byte i while b's byte there is 0xFF: the sum wraps to 0. */
  ghost predicate WrapsAt(a: Addr, b: Addr, i: nat)
    requires |a| == |b| && i < |a|
  {
    b[i] == 255 && Sub(a[i + 1..], b[i + 1..]).1 == 1
  }

  /** No wrap at a byte from `from` on whose high nibble lies inside the first m nibbles. */
  ghost predicate NoWrapInPrefix(a: Addr, b: Addr, from: nat, m: int)
    requires |a| == |b|
  {
    forall i :: from <= i < |a| && 2 * i < m ==> !WrapsAt(a, b, i)
  }

  ghost predicate Agree(a: Addr, b: Addr, m: nat)
    requires |a| == |b|
  {
    m <= Level(a, b)
  }

  lemma AgreeHead(a: Addr, b: Addr, m: nat)
    requires |a| == |b| > 0 && 0 < m && Agree(a, b, m)
    ensures a[0] / 16 == b[0] / 16
    ensures m >= 2 ==> a[0] == b[0] && Agree(a[1..], b[1..], m - 2)
  {
    var ha, hb := Nibbles(a), Nibbles(b);
    assert ha[..m] == ha[..Level(a, b)][..m] == hb[..Level(a, b)][..m] == hb[..m];
    NibblesUnfold(a);
    NibblesUnfold(b);
    assert ha[0] == ha[..m][0] == hb[..m][0] == hb[0];
    if m >= 2 {
      assert ha[1] == ha[..m][1] == hb[..m][1] == hb[1];
      assert ha[..m][2..] == Nibbles(a[1..])[..m - 2] && hb[..m][2..] == Nibbles(b[1..])[..m - 2];
      SharedIs(Nibbles(a[1..]), Nibbles(b[1..]), m - 2);
    }
  }

  /** A difference d on a ring of m with its sign taken away by the complement. */
  function Settle(d: int, carry: nat, m: int): int {
    if carry == 1 then m - 1 - d else d
  }

  function Settled(a: Addr, b: Addr): int
    requires |a| == |b|
  {
    Settle(Num(Sub(a, b).0), Sub(a, b).1, Ring(|a|))
  }

  /** One step of the subtraction, on integers: the head digit and what the tail leaves. */
  lemma SubParts(a: Addr, b: Addr)
    requires |a| == |b| > 0
    ensures var p, rest, digit := Ring(|a| - 1), Num(Sub(a[1..], b[1..]).0), DigitOf(a[0], b[0], BorrowIn(a, b));
            && rest < p && Ring(|a|) == 256 * p
            && Sub(a, b).0[0] == digit && Num(Sub(a, b).0) == digit * p + rest
  {
    SubStep(a, b);
    NumHead(Sub(a, b).0);
    NumBound(Sub(a[1..], b[1..]).0);
    RingSplits(|a|);
  }

  //// The head byte of a shared prefix

  lemma WrappedHead(x: byte, y: byte, rest: nat, p: nat)
    requires y == 255 && x / 16 == y / 16
    ensures Settle(DigitOf(x, y, 1) * p + rest, BorrowOf(x, y, 1), 256 * p) >= 16 * p
  {
    assert DigitOf(x, y, 1) == x && BorrowOf(x, y, 1) == 0;
    Scale(16, x, p);
  }

  lemma NearDigit(x: byte, y: byte, c: nat)
    requires c <= 1 && x / 16 == y / 16
    ensures DigitOf(x, y, c) < 16 || DigitOf(x, y, c) >= 240
    ensures !(y == 255 && c == 1) ==> (BorrowOf(x, y, c) == 1 <==> DigitOf(x, y, c) >= 240)
  {
    DigitIs(x, y, c);
    assert -16 < x as int - y as int < 16;
  }

  lemma NibbleHead(x: byte, y: byte, c: nat, rest: nat, p: nat)
    requires c <= 1 && rest < p && x / 16 == y / 16 && !(y == 255 && c == 1)
    ensures Settle(DigitOf(x, y, c) * p + rest, BorrowOf(x, y, c), 256 * p) < 16 * p
  {
    NearDigit(x, y, c);
    FoldedHead(DigitOf(x, y, c), rest, p);
  }

  lemma FoldedHead(d: byte, rest: nat, p: nat)
    requires (d < 16 || d >= 240) && rest < p
    ensures d < 16 ==> d * p + rest < 16 * p
    ensures d >= 240 ==> 256 * p - 1 - (d * p + rest) < 16 * p
  {
    if d < 16 {
      Scale(d, 15, p);
    } else {
      Scale(240, d, p);
    }
  }

  lemma EqualDigit(x: byte, c: nat)
    requires c <= 1
    ensures DigitOf(x, x, c) == (if c == 1 then 255 else 0)
    ensures !(x == 255 && c == 1) ==> BorrowOf(x, x, c) == c
  {
    DigitIs(x, x, c);
  }

  lemma EqualHead(x: byte, c: nat, rest: nat, p: nat)
    requires c <= 1 && !(x == 255 && c == 1)
    ensures Settle(DigitOf(x, x, c) * p + rest, BorrowOf(x, x, c), 256 * p) == Settle(rest, c, p)
  {
    EqualDigit(x, c);
    assert c == 1 ==> 256 * p - 1 - (255 * p + rest) == p - 1 - rest;
  }

  lemma PrefixShift(a: Addr, b: Addr, m: int)
    requires |a| == |b| > 0
    ensures NoWrapInPrefix(a, b, 1, m) <==> NoWrapInPrefix(a[1..], b[1..], 0, m - 2)
  {
    var at, bt := a[1..], b[1..];
    forall i | 1 <= i < |a| ensures WrapsAt(a, b, i) <==> WrapsAt(at, bt, i - 1) {
      assert a[i + 1..] == at[i..] && b[i + 1..] == bt[i..];
    }
    if !NoWrapInPrefix(at, bt, 0, m - 2) {
      var i :| 0 <= i < |at| && 2 * i < m - 2 && WrapsAt(at, bt, i);
      assert WrapsAt(a, b, i + 1);
    }
  }

  lemma PowMonotonic(e: nat, f: nat)
    requires e <= f
    ensures Pow(16, e) <= Pow(16, f)
  {
    if e < f {
      PowMonotonic(e, f - 1);
      PowPositive(16, f - 1);
    }
  }

  lemma NibbleBelowRing(n: nat)
    requires n > 0
    ensures Pow(16, 2 * n - 1) == 16 * Ring(n - 1)
  {
    NibbleRing(n - 1);
  }

  /** The head byte of a shared prefix leaves the settled value alone unless it wraps. */
  lemma SettleStep(a: Addr, b: Addr, m: nat)
    requires |a| == |b| > 0 && 0 < m <= 2 * |a| && a[0] / 16 == b[0] / 16 && (m >= 2 ==> a[0] == b[0])
    ensures WrapsAt(a, b, 0) ==> Settled(a, b) >= Pow(16, 2 * |a| - m)
    ensures !WrapsAt(a, b, 0) && m == 1 ==> Settled(a, b) < Pow(16, 2 * |a| - m)
    ensures !WrapsAt(a, b, 0) && m >= 2 ==> Settled(a, b) == Settled(a[1..], b[1..])
  {
    var p, c, rest := Ring(|a| - 1), BorrowIn(a, b), Num(Sub(a[1..], b[1..]).0);
    SubParts(a, b);
    SubStep(a, b);
    NibbleBelowRing(|a|);
    if WrapsAt(a, b, 0) {
      PowMonotonic(2 * |a| - m, 2 * |a| - 1);
      WrappedHead(a[0], b[0], rest, p);
    } else if m == 1 {
      NibbleHead(a[0], b[0], c, rest, p);
    } else {
      EqualHead(a[0], c, rest, p);
    }
  }

  lemma FullRing(a: Addr, b: Addr)
    requires |a| == |b|
    ensures Settled(a, b) < Pow(16, 2 * |a|)
  {
    NumBound(Sub(a, b).0);
    NibbleRing(|a|);
  }

  lemma PrefixSplits(a: Addr, b: Addr, m: nat)
    requires |a| == |b| > 0 && 0 < m
    ensures NoWrapInPrefix(a, b, 0, m) <==> !WrapsAt(a, b, 0) && NoWrapInPrefix(a[1..], b[1..], 0, m - 2)
  {
    PrefixShift(a, b, m);
  }

  lemma WholePrefixByte(a: Addr, b: Addr, m: nat)
    requires |a| == |b| > 0 && 0 < m && Agree(a, b, m)
    requires m >= 2 ==> Agree(a[1..], b[1..], m - 2)
                        && (Settled(a[1..], b[1..]) < Pow(16, 2 * |a[1..]| - (m - 2)) <==>
                              NoWrapInPrefix(a[1..], b[1..], 0, m - 2))
    ensures Settled(a, b) < Pow(16, 2 * |a| - m) <==> NoWrapInPrefix(a, b, 0, m)
  {
    AgreeHead(a, b, m);
    PrefixSplits(a, b, m);
    SettleStep(a, b, m);
    assert 2 * |a[1..]| - (m - 2) == 2 * |a| - m;
  }

  lemma {:induction false} SettledWithinPrefix(a: Addr, b: Addr, m: nat)
    requires |a| == |b| && Agree(a, b, m)
    ensures Settled(a, b) < Pow(16, 2 * |a| - m) <==> NoWrapInPrefix(a, b, 0, m)
  {
    if m == 0 {
      FullRing(a, b);
    } else {
      if m >= 2 {
        AgreeHead(a, b, m);
        SettledWithinPrefix(a[1..], b[1..], m - 2);
      }
      WholePrefixByte(a, b, m);
    }
  }

  /** The folded distance, from the head digit of the difference and the value of its tail. */
  function HeadFold(digit: byte, rest: nat, p: nat): int {
    if digit >= 128 then 256 * p - 1 - (digit * p + rest) else digit * p + rest
  }

  lemma DistFromHead(a: Addr, b: Addr)
    requires |a| == |b| > 0
    ensures var p, rest, digit := Ring(|a| - 1), Num(Sub(a[1..], b[1..]).0), DigitOf(a[0], b[0], BorrowIn(a, b));
            rest < p && DistNum(a, b) == HeadFold(digit, rest, p)
  {
    SubParts(a, b);
    TopBit(Sub(a, b).0);
    DistIsFolded(a, b);
  }

  lemma FoldSettles(digit: byte, c: nat, rest: nat, p: nat)
    requires digit == if c == 1 then 255 else 0
    ensures HeadFold(digit, rest, p) == Settle(rest, c, p)
  {
    if c == 1 {
      assert digit * p == 255 * p;
    }
  }

  lemma EqualHeadFold(x: byte, c: nat, rest: nat, p: nat)
    requires c <= 1
    ensures HeadFold(DigitOf(x, x, c), rest, p) == Settle(rest, c, p)
  {
    EqualDigit(x, c);
    FoldSettles(DigitOf(x, x, c), c, rest, p);
  }

  lemma TailSettled(a: Addr, b: Addr)
    requires |a| == |b| > 0
    ensures Settled(a[1..], b[1..]) == Settle(Num(Sub(a[1..], b[1..]).0), BorrowIn(a, b), Ring(|a| - 1))
  {
  }

  lemma DistSettles(a: Addr, b: Addr)
    requires |a| == |b| > 0 && a[0] == b[0]
    ensures DistNum(a, b) == Settled(a[1..], b[1..])
  {
    DistFromHead(a, b);
    TailSettled(a, b);
    EqualHeadFold(a[0], BorrowIn(a, b), Num(Sub(a[1..], b[1..]).0), Ring(|a| - 1));
  }

  lemma TailWithinPrefix(a: Addr, b: Addr, m: nat)
    requires |a| == |b| > 0 && 2 <= m <= Level(a, b)
    ensures Settled(a[1..], b[1..]) < Pow(16, 2 * |a| - m) <==> NoWrapInPrefix(a[1..], b[1..], 0, m - 2)
  {
    AgreeHead(a, b, m);
    SettledWithinPrefix(a[1..], b[1..], m - 2);
    assert 2 * |a[1..]| - (m - 2) == 2 * |a| - m;
  }

  lemma LongPrefixBound(a: Addr, b: Addr, m: nat)
    requires |a| == |b| > 0 && 2 <= m <= Level(a, b) && a[0] == b[0]
    ensures DistNum(a, b) < Pow(16, 2 * |a| - m) <==> NoWrapInPrefix(a, b, 1, m)
  {
    DistSettles(a, b);
    TailWithinPrefix(a, b, m);
    PrefixShift(a, b, m);
  }

  lemma OneNibbleBound(a: Addr, b: Addr)
    requires |a| == |b| > 0 && a[0] / 16 == b[0] / 16
    ensures DistNum(a, b) < Pow(16, 2 * |a| - 1)
  {
    DistFromHead(a, b);
    NearDigit(a[0], b[0], BorrowIn(a, b));
    FoldedHead(DigitOf(a[0], b[0], BorrowIn(a, b)), Num(Sub(a[1..], b[1..]).0), Ring(|a| - 1));
    NibbleBelowRing(|a|);
  }

  /** Sharing m >= 1 nibbles means a distance below 16^(2n-m), exactly when no borrow wraps
      inside the shared prefix (byte 0 apart). */
  lemma PrefixBoundsDistanceIff(a: Addr, b: Addr, m: nat)
    requires |a| == |b| > 0 && 1 <= m <= Level(a, b)
    ensures DistNum(a, b) < Pow(16, 2 * |a| - m) <==> NoWrapInPrefix(a, b, 1, m)
  {
    AgreeHead(a, b, m);
    if m == 1 {
      OneNibbleBound(a, b);
    } else {
      LongPrefixBound(a, b, m);
    }
  }

  /** Without lost borrows the prefix always bounds the distance. */
  lemma PrefixBoundsDistance(a: Addr, b: Addr, m: nat)
    requires |a| == |b| > 0 && 1 <= m <= Level(a, b) && NoLostBorrow(a, b)
    ensures DistNum(a, b) < Pow(16, 2 * |a| - m)
  {
    NoLostBorrowIff(a, b);
    forall i | 1 <= i < |a| ensures !WrapsAt(a, b, i) {
      assert a[i + 1..] == a[1..][i..] && b[i + 1..] == b[1..][i..];
      WrapIsLost(a[1..], b[1..], i - 1);
    }
    PrefixBoundsDistanceIff(a, b, m);
  }

  lemma {:induction false} WrapIsLost(a: Addr, b: Addr, i: nat)
    requires |a| == |b| && i < |a| && Lost(a, b) == 0
    ensures !WrapsAt(a, b, i)
  {
    PowPositive(256, |a|);
    if i > 0 {
      WrapIsLost(a[1..], b[1..], i - 1);
      assert a[i + 1..] == a[1..][i..] && b[i + 1..] == b[1..][i..];
    }
  }

  /** Neighbours 00ff00 and 00ff01 share 4 of their 6 nibbles, yet measure 256 or more. */
  lemma PrefixBoundFails(a: Addr, b: Addr)
    requires a == [0, 255, 0] && b == [0, 255, 1]
    ensures Level(a, b) >= 4 && DistNum(a, b) >= 256
  {
    SharedIs(Nibbles(a), Nibbles(b), 4);
    BorrowFromZero(a[2..], b[2..]);
    assert WrapsAt(a, b, 1);
    PrefixBoundsDistanceIff(a, b, 4);
    assert Pow(16, 2) == 16 * Pow(16, 1) == 256;
  }

  lemma BorrowFromZero(a: Addr, b: Addr)
    requires a == [0] && b == [1]
    ensures Sub(a, b).1 == 1
  {
    assert a[1..] == b[1..] == [];
  }
}
