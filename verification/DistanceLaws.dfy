/** When the computed ring distance is zero, and when it is the same both ways. */
module DistanceLaws {
  import opened Numerals
  import opened Address
  import opened RingDistance

  //// When the distance is zero

  function AllOnes(n: nat): (a: Addr)
    ensures |a| == n && forall i :: 0 <= i < n ==> a[i] == 255
  {
    seq(n, _ => 255)
  }

  /** The predecessor of b as the subtraction sees it, with the borrow it leaves: wherever a borrow
      is forgotten, the bytes above are decremented once more. */
  function ShadowOf(b: Addr): (r: (Addr, nat))
    ensures |r.0| == |b| && r.1 <= 1
  {
    if b == [] then ([], 0)
    else
      var (rest, carry) := ShadowOf(b[1..]);
      var cb := Subtrahend(b[0], carry);
      ([if cb == 0 then 255 else cb - 1] + rest, if cb == 0 then 0 else 1)
  }

  function Shadow(b: Addr): (a: Addr)
    ensures |a| == |b|
  {
    ShadowOf(b).0
  }

  lemma ShadowStep(b: Addr)
    requires b != []
    ensures var cb := Subtrahend(b[0], ShadowOf(b[1..]).1);
            && Shadow(b)[0] == (if cb == 0 then 255 else cb - 1)
            && ShadowOf(b).1 == (if cb == 0 then 0 else 1)
    ensures Shadow(b)[1..] == Shadow(b[1..])
  {
  }

  /** The difference reads as all ones from the shadow of b, and from nowhere else. */
  lemma {:induction false} AllOnesFromShadow(a: Addr, b: Addr)
    requires |a| == |b|
    ensures Sub(a, b).0 == AllOnes(|a|) <==> a == Shadow(b)
    ensures a == Shadow(b) ==> Sub(a, b).1 == ShadowOf(b).1
  {
    if a != [] {
      AllOnesFromShadow(a[1..], b[1..]);
      SubStep(a, b);
      ShadowStep(b);
      assert AllOnes(|a|)[1..] == AllOnes(|a| - 1);
      EqualParts(Sub(a, b).0, AllOnes(|a|));
      EqualParts(a, Shadow(b));
      OnesDigit(a[0], b[0], BorrowIn(a, b));
    }
  }

  lemma OnesDigit(a: byte, b: byte, carry: nat)
    ensures var cb := Subtrahend(b, carry);
            && (DigitOf(a, b, carry) == 255 <==> a == if cb == 0 then 255 else cb - 1)
            && (DigitOf(a, b, carry) == 255 ==> BorrowOf(a, b, carry) == if cb == 0 then 0 else 1)
  {
  }

  /** The difference reads as all zeros between equal addresses only. */
  lemma {:induction false} ZeroDifference(a: Addr, b: Addr)
    requires |a| == |b|
    ensures Sub(a, b).0 == Zeros(|a|) <==> a == b
    ensures a == b ==> Sub(a, b).1 == 0
  {
    if a != [] {
      ZeroDifference(a[1..], b[1..]);
      SubStep(a, b);
      assert Zeros(|a|)[1..] == Zeros(|a| - 1);
      EqualParts(Sub(a, b).0, Zeros(|a|));
      EqualParts(a, b);
      ZeroDigit(a[0], b[0]);
    }
  }

  lemma ZeroDigit(a: byte, b: byte)
    ensures DigitOf(a, b, 0) == 0 <==> a == b
    ensures a == b ==> BorrowOf(a, b, 0) == 0
  {
  }

  lemma ZeroNum(d: Addr)
    ensures Num(d) == 0 <==> d == Zeros(|d|)
  {
    ZeroIff(d);
  }

  lemma OnesComplementZero(d: Addr)
    ensures Num(d) == Ring(|d|) - 1 <==> d == AllOnes(|d|)
  {
    NegateValue(d);
    ZeroIff(Negate(d));
    if Num(d) == Ring(|d|) - 1 {
      forall j | 0 <= j < |d| ensures d[j] == 255 {
        assert Negate(d)[j] == 0;
      }
    }
  }

  /** For all inputs: the computed distance is 0 from b itself and from b's shadow only. */
  lemma DistZeroIff(a: Addr, b: Addr)
    requires |a| == |b| > 0
    ensures DistNum(a, b) == 0 <==> a == b || a == Shadow(b)
  {
    DistIsFolded(a, b);
    RingSplits(|a|);
    ZeroNum(Sub(a, b).0);
    ZeroDifference(a, b);
    OnesComplementZero(Sub(a, b).0);
    AllOnesFromShadow(a, b);
  }

  lemma ShadowTail(b: Addr)
    requires b != []
    ensures Shadow(b)[1..] == Shadow(b[1..])
    ensures BorrowIn(Shadow(b), b) == ShadowOf(b[1..]).1
  {
    ShadowStep(b);
    AllOnesFromShadow(Shadow(b[1..]), b[1..]);
  }

  lemma NonZeroParts(b: Addr)
    requires b != []
    ensures b != Zeros(|b|) <==> b[0] != 0 || b[1..] != Zeros(|b| - 1)
  {
    assert Zeros(|b|)[1..] == Zeros(|b| - 1);
    EqualParts(b, Zeros(|b|));
  }

  lemma NonZeroSubtrahend(y: byte, carry: nat)
    requires carry <= 1 && !(y == 255 && carry == 1)
    ensures Subtrahend(y, carry) != 0 <==> y != 0 || carry == 1
  {
  }

  /** While none is lost, the shadow leaves a borrow exactly when b is not zero. */
  lemma {:induction false} ShadowBorrow(b: Addr)
    requires Lost(Shadow(b), b) == 0
    ensures ShadowOf(b).1 == 1 <==> b != Zeros(|b|)
  {
    if b != [] {
      PowPositive(256, |b|);
      ShadowTail(b);
      ShadowBorrow(b[1..]);
      ShadowStep(b);
      NonZeroParts(b);
      NonZeroSubtrahend(b[0], ShadowOf(b[1..]).1);
    }
  }

  lemma {:induction false} UnsafeLoses(b: Addr, i: nat, j: nat)
    requires i < j < |b| && b[i] == 255 && b[j] != 0
    ensures Lost(Shadow(b), b) > 0
  {
    var bt := b[1..];
    PowPositive(256, |b|);
    ShadowTail(b);
    if i > 0 {
      UnsafeLoses(bt, i - 1, j - 1);
    } else if Lost(Shadow(bt), bt) == 0 {
      ShadowBorrow(bt);
      assert bt[j - 1] != 0;
    }
  }

  lemma ShadowLosesIff(b: Addr)
    requires b != []
    ensures Lost(Shadow(b)[1..], b[1..]) == 0 <==> BorrowSafe(b)
  {
    if BorrowSafe(b) {
      ExactFromEverywhereIff(b);
      NoLostBorrowIff(Shadow(b), b);
    } else {
      var i, j :| 1 <= i < j < |b| && b[i] == 255 && b[j] != 0;
      ShadowTail(b);
      UnsafeLoses(b[1..], i - 1, j - 1);
    }
  }

  /** The byte where a borrow is forgotten stays 0xFF in the shadow. */
  lemma {:induction false} ShadowNotZero(b: Addr)
    requires Lost(Shadow(b), b) > 0
    ensures Shadow(b) != Zeros(|b|)
  {
    ShadowTail(b);
    ShadowStep(b);
    if Lost(Shadow(b[1..]), b[1..]) > 0 {
      ShadowNotZero(b[1..]);
      assert Zeros(|b|)[1..] == Zeros(|b| - 1);
    }
  }

  /** The shadow lies below b, round the ring, by one and by the weight of what is lost. */
  lemma ShadowOffset(b: Addr)
    requires b != []
    ensures var m, l := Ring(|b|), Lost(Shadow(b)[1..], b[1..]);
            && Num(Shadow(b)) < m && Num(b) < m && l < m && l % 256 == 0
            && Offset(Num(Shadow(b)), Num(b), m) == m - 1 - l
  {
    AllOnesFromShadow(Shadow(b), b);
    OnesComplementZero(Sub(Shadow(b), b).0);
    SubModuloRing(Shadow(b), b);
  }

  /** The shadow is the true predecessor exactly when b is borrow-safe; otherwise it is at least
      255 positions away, whichever way round. */
  lemma ShadowIsPredecessorIff(b: Addr)
    requires b != []
    ensures var m := Ring(|b|);
            && Num(Shadow(b)) < m && Num(b) < m
            && var o := Offset(Num(Shadow(b)), Num(b), m);
               && (BorrowSafe(b) <==> o == m - 1)
               && (!BorrowSafe(b) ==> 255 <= o <= m - 257)
  {
    ShadowOffset(b);
    ShadowLosesIff(b);
    RingSplits(|b|);
    MultipleGap(Lost(Shadow(b)[1..], b[1..]), Ring(|b| - 1));
  }

  lemma MultipleGap(l: nat, p: nat)
    requires l % 256 == 0 && l < 256 * p
    ensures l <= 256 * p - 256 && (l != 0 ==> l >= 256)
  {
    assert l == 256 * (l / 256);
  }

  /** Measured to a borrow-safe address: distance 0 from it and from its predecessor. */
  lemma DistZeroWhenSafe(a: Addr, b: Addr)
    requires |a| == |b| > 0 && BorrowSafe(b)
    ensures DistNum(a, b) == 0
       <==> a == b || Num(b) == if Num(a) + 1 == Ring(|a|) then 0 else Num(a) + 1
  {
    DistZeroIff(a, b);
    ShadowIsPredecessorIff(b);
    NumInjective(a, Shadow(b));
    NumBound(a);
  }

  /** 00ff00 and 01ff01 are 65537 apart and at computed distance 0. */
  lemma DistZeroFarApart(a: Addr, b: Addr)
    requires a == [0, 255, 0] && b == [1, 255, 1]
    ensures DistNum(a, b) == 0 && Num(b) == Num(a) + 65537
  {
    var b1 := b[1..];
    var b2 := b1[1..];
    assert b1 == [255, 1] && b2 == [1] && b2[1..] == [];
    assert ShadowOf(b2).0 == [0] && ShadowOf(b2).1 == 1;
    assert ShadowOf(b1).0 == [255, 0] && ShadowOf(b1).1 == 0;
    assert Shadow(b) == a;
    DistZeroIff(a, b);
    ThreeBytes(0, 255, 0);
    ThreeBytes(1, 255, 1);
  }

  lemma ThreeBytes(x: byte, y: byte, z: byte)
    ensures Num([x, y, z]) == x as int * 65536 + y as int * 256 + z as int
  {
    var s, s1, s2: Addr := [x, y, z], [y, z], [z];
    assert s[1..] == s1 && s1[1..] == s2 && s2[1..] == [];
    assert Ring(0) == 1 && Ring(1) == 256 && Ring(2) == 65536;
    assert Val(256, s2) == z as int * Pow(256, 0) + Val(256, s2[1..]);
    assert Val(256, s1) == y as int * Pow(256, 1) + Val(256, s1[1..]);
    assert Val(256, s) == x as int * Pow(256, 2) + Val(256, s[1..]);
  }

  //// When the distance is symmetric

  /** What the digit borrows and loses, counted in 256ths. */
  function Wrapped(x: byte, y: byte, c: nat): nat {
    BorrowOf(x, y, c) + if y == 255 && c == 1 then 1 else 0
  }

  lemma SymmetricDigit(x: int, y: int, c: nat, c': nat, w: int, w': int)
    requires 0 <= x < 256 && 0 <= y < 256 && c <= 1 && c' <= 1
    requires x - y - c + 256 * w == y - x - c' + 256 * w'
    ensures c == c' && (x == y || x == y + 128 || y == x + 128)
  {
    HalfGap(x - y, c, c', w' - w);
  }

  lemma HalfGap(d: int, c: nat, c': nat, k: int)
    requires -255 <= d <= 255 && c <= 1 && c' <= 1 && 2 * d == c - c' + 256 * k
    ensures c == c' && (d == 0 || d == 128 || d == -128)
  {
    assert c - c' == 2 * (d - 128 * k);
    assert d == 128 * k;
    assert -2 < k < 2;
  }

  lemma OneBorrows(x: byte, y: byte)
    requires x != y
    ensures BorrowOf(x, y, 0) != BorrowOf(y, x, 0)
  {
  }

  /** Equal differences both ways: the addresses are equal, or they differ in the top byte only,
      by 128, and then leave different borrows. */
  lemma {:induction false} EqualDifferences(a: Addr, b: Addr)
    requires |a| == |b| && Sub(a, b).0 == Sub(b, a).0
    ensures a == b || (&& a[1..] == b[1..] && Sub(a, b).1 != Sub(b, a).1
                       && (a[0] as int == b[0] as int + 128 || b[0] as int == a[0] as int + 128))
  {
    if a != [] {
      SubStep(a, b);
      SubStep(b, a);
      EqualDifferences(a[1..], b[1..]);
      var c, c' := BorrowIn(a, b), BorrowIn(b, a);
      DigitIs(a[0], b[0], c);
      DigitIs(b[0], a[0], c');
      SymmetricDigit(a[0], b[0], c, c', Wrapped(a[0], b[0], c), Wrapped(b[0], a[0], c'));
      EqualParts(a, b);
      if a[1..] == b[1..] && a[0] != b[0] {
        ZeroDifference(a[1..], b[1..]);
        OneBorrows(a[0], b[0]);
      }
    }
  }

  lemma {:induction false} LowestDigit(a: Addr, b: Addr)
    requires |a| == |b| > 0
    ensures Sub(a, b).0[|a| - 1] == DigitOf(a[|a| - 1], b[|a| - 1], 0)
  {
    SubStep(a, b);
    if |a| > 1 {
      LowestDigit(a[1..], b[1..]);
      assert Sub(a, b).0[|a| - 1] == Sub(a, b).0[1..][|a| - 2];
    }
  }

  /** The low digits of the two differences cancel, so the differences are never complements. */
  lemma NeverComplements(a: Addr, b: Addr)
    requires |a| == |b| > 0
    ensures Sub(a, b).0 != Negate(Sub(b, a).0)
  {
    LowestDigit(a, b);
    LowestDigit(b, a);
    DigitsCancel(a[|a| - 1], b[|a| - 1]);
  }

  lemma DigitsCancel(x: byte, y: byte)
    ensures DigitOf(x, y, 0) != 255 - DigitOf(y, x, 0)
  {
  }

  lemma HalfRingApart(a: Addr, b: Addr)
    requires |a| == |b| > 0 && a[1..] == b[1..] && a[0] as int == b[0] as int + 128
    ensures Num(a) < Ring(|a|) && Num(b) < Ring(|a|)
    ensures 2 * Offset(Num(a), Num(b), Ring(|a|)) == 2 * Offset(Num(b), Num(a), Ring(|a|)) == Ring(|a|)
  {
    var p := Ring(|a| - 1);
    NumBound(a);
    NumBound(b);
    assert a[0] * p == b[0] * p + 128 * p;
  }

  lemma SymmetricMeansEqualDifferences(a: Addr, b: Addr)
    requires |a| == |b| > 0 && DistNum(a, b) == DistNum(b, a)
    ensures Sub(a, b).0 == Sub(b, a).0
  {
    var d, e := Sub(a, b).0, Sub(b, a).0;
    DistIsFolded(a, b);
    DistIsFolded(b, a);
    NeverComplements(a, b);
    NegateValue(e);
    NumInjective(d, e);
    NumInjective(d, Negate(e));
  }

  lemma SymmetricMeansOpposite(a: Addr, b: Addr)
    requires |a| == |b| > 0 && a != b && DistNum(a, b) == DistNum(b, a)
    ensures Num(a) < Ring(|a|) && Num(b) < Ring(|a|) && 2 * Offset(Num(a), Num(b), Ring(|a|)) == Ring(|a|)
  {
    SymmetricMeansEqualDifferences(a, b);
    EqualDifferences(a, b);
    if a[0] as int == b[0] as int + 128 {
      HalfRingApart(a, b);
    } else {
      HalfRingApart(b, a);
    }
  }

  /** Opposite addresses differ in the top byte only, so nothing is lost between them. */
  lemma OppositeIsExact(a: Addr, b: Addr)
    requires |a| == |b| > 0 && Num(a) < Ring(|a|) && Num(b) < Ring(|a|)
    requires 2 * Offset(Num(a), Num(b), Ring(|a|)) == Ring(|a|)
    ensures 2 * Offset(Num(b), Num(a), Ring(|a|)) == Ring(|a|)
    ensures 2 * DistNum(a, b) == Ring(|a|) - 2
  {
    var p, at, bt := Ring(|a| - 1), a[1..], b[1..];
    NumBound(at);
    NumBound(bt);
    RingSplits(|a|);
    OppositeTails(a[0], b[0], Num(at), Num(bt), p, Num(a) - Num(b));
    NumInjective(at, bt);
    forall i | 1 <= i < |a| ensures !LosesAt(a, b, i) {
      assert a[i + 1..] == at[i..] && b[i + 1..] == bt[i..];
    }
    DistExactIff(a, b);
  }

  lemma OppositeTails(x: byte, y: byte, xt: nat, yt: nat, p: nat, d: int)
    requires xt < p && yt < p && d == x * p + xt - y * p - yt
    requires d == 128 * p || d == -128 * p
    ensures xt == yt
  {
    var z := x - y;
    assert x * p - y * p == z * p;
    if d == 128 * p {
      if z < 128 {
        Scale(z, 127, p);
      } else if z > 128 {
        Scale(129, z, p);
      }
    } else {
      if z > -128 {
        Scale(-127, z, p);
      } else if z < -128 {
        Scale(z, -129, p);
      }
    }
  }

  /** For all inputs: the computed distance is the same both ways exactly between equal and between
      diametrically opposite addresses. */
  lemma DistSymmetricIff(a: Addr, b: Addr)
    requires |a| == |b| > 0
    ensures Num(a) < Ring(|a|) && Num(b) < Ring(|a|)
    ensures DistNum(a, b) == DistNum(b, a) <==> a == b || 2 * Offset(Num(a), Num(b), Ring(|a|)) == Ring(|a|)
  {
    NumBound(a);
    NumBound(b);
    if DistNum(a, b) == DistNum(b, a) && a != b {
      SymmetricMeansOpposite(a, b);
    }
    if DistNum(a, b) != DistNum(b, a) && 2 * Offset(Num(a), Num(b), Ring(|a|)) == Ring(|a|) {
      OppositeIsExact(a, b);
      OppositeIsExact(b, a);
    }
  }
}
