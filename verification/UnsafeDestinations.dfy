/** The converse of leafset optimality: every destination that can lose a borrow is misrouted by
    some router, so optimality for all routers characterises the borrow-safe destinations. */
module UnsafeDestinations {
  import opened Options
  import opened Numerals
  import opened Address
  import opened RingDistance
  import opened DistanceLaws
  import opened Entries
  import opened Leafsets
  import opened RouterStates
  import opened NextHops
  import opened Optimality
  import opened NearestKnown
  import opened RunsExist

  //// The measure just below an unsafe destination

  /** Byte i of b is the last 0xFF, past byte 0, with something non-zero after it. */
  ghost predicate LastUnsafe(b: Addr, i: nat) {
    && 1 <= i < |b| && b[i] == 255 && Num(b[i + 1..]) > 0
    && forall j :: i < j < |b| && b[j] == 255 ==> Num(b[j + 1..]) == 0
  }

  /** Every address that is not borrow-safe has such a byte. */
  lemma FindLastUnsafe(b: Addr) returns (i: nat)
    requires !BorrowSafe(b)
    ensures LastUnsafe(b, i)
  {
    var i0, j :| 1 <= i0 < j < |b| && b[i0] == 255 && b[j] != 0;
    ZeroIff(b[i0 + 1..]);
    assert b[i0 + 1..][j - i0 - 1] == b[j];
    i := |b| - 1;
    while b[i] != 255 || Num(b[i + 1..]) == 0
      invariant i0 <= i < |b|
      invariant forall j :: i < j < |b| && b[j] == 255 ==> Num(b[j + 1..]) == 0
      decreases i
    {
      i := i - 1;
    }
  }

  lemma DropHead(a: Addr, b: Addr, k: nat)
    requires 0 < k <= |a| == |b| && a[..k] == b[..k]
    ensures a[0] == b[0] && a[1..][..k - 1] == b[1..][..k - 1]
    ensures a[1..][k - 1..] == a[k..] && b[1..][k - 1..] == b[k..]
  {
    assert a[0] == a[..k][0] && b[0] == b[..k][0];
    assert a[1..][..k - 1] == a[..k][1..] && b[1..][..k - 1] == b[..k][1..];
  }

  lemma EqualHeads(a: Addr, b: Addr)
    requires |a| == |b| > 0 && a[0] == b[0]
    ensures Num(a) - Num(b) == Num(a[1..]) - Num(b[1..])
  {
  }

  /** A common prefix cancels in the difference. */
  lemma {:induction false} PrefixCancels(a: Addr, b: Addr, k: nat)
    requires |a| == |b| && k <= |a| && a[..k] == b[..k]
    ensures Num(a) - Num(b) == Num(a[k..]) - Num(b[k..])
  {
    if k == 0 {
      assert a[0..] == a && b[0..] == b;
    } else {
      DropHead(a, b, k);
      EqualHeads(a, b);
      PrefixCancels(a[1..], b[1..], k - 1);
    }
  }

  lemma ZeroHead(a: Addr, b: Addr)
    requires |a| == |b| > 0 && a[0] == b[0] && BorrowIn(a, b) == 0
    ensures Sub(a, b).1 == 0 && Sub(a, b).0[0] == 0 && Num(Sub(a, b).0) == Num(Sub(a[1..], b[1..]).0)
  {
    SubStep(a, b);
    ZeroDigit(a[0], b[0]);
    NumHead(Sub(a, b).0);
  }

  /** A common prefix reached by no borrow subtracts to zeros. */
  lemma {:induction false} PrefixSubtracts(a: Addr, b: Addr, k: nat)
    requires |a| == |b| && k <= |a| && a[..k] == b[..k] && Sub(a[k..], b[k..]).1 == 0
    ensures Sub(a, b).1 == 0 && Num(Sub(a, b).0) == Num(Sub(a[k..], b[k..]).0)
    ensures k > 0 ==> Sub(a, b).0[0] == 0
  {
    if k == 0 {
      assert a[0..] == a && b[0..] == b;
    } else {
      DropHead(a, b, k);
      PrefixSubtracts(a[1..], b[1..], k - 1);
      ZeroHead(a, b);
    }
  }

  /** Past the last unsafe byte the subtraction is exact. */
  lemma TailIsExact(b: Addr, i: nat, at: Addr)
    requires LastUnsafe(b, i) && |at| == |b| - i - 1 && Num(at) < Num(b[i + 1..])
    ensures var d := Sub(at, b[i + 1..]);
            d.1 == 1 && Num(d.0) == Num(at) - Num(b[i + 1..]) + Ring(|at|)
  {
    var t := b[i + 1..];
    forall j | 0 <= j < |t| ensures !LosesAt(at, t, j) {
      assert t[j + 1..] == b[i + 1 + j + 1..];
    }
    NothingLostIff(at, t);
    CarryIsTrue(at, t);
    SubValue(at, t);
    assert 1 * Ring(|at|) == Ring(|at|);
  }

  /** Byte i: the borrow wraps 0xFF to 0, the difference reads 255, and the borrow is gone. */
  lemma LosingByte(a: Addr, b: Addr)
    requires |a| == |b| > 0 && a[0] == b[0] == 255 && BorrowIn(a, b) == 1
    ensures Sub(a, b).1 == 0 && Num(Sub(a, b).0) == 255 * Ring(|a| - 1) + Num(Sub(a[1..], b[1..]).0)
  {
    SubStep(a, b);
    LosingDigit(255, 255);
    NumHead(Sub(a, b).0);
  }

  lemma LosingDigit(x: byte, y: byte)
    requires x == y == 255
    ensures DigitOf(x, y, 1) == 255 && BorrowOf(x, y, 1) == 0
  {
  }

  lemma WholeDifference(dst: Addr, i: nat, a: Addr)
    requires LastUnsafe(dst, i) && |a| == |dst| && a[..i + 1] == dst[..i + 1]
    requires Num(a[i + 1..]) < Num(dst[i + 1..])
    ensures Sub(a, dst).0[0] == 0
    ensures Num(Sub(a, dst).0) == 256 * Ring(|dst| - i - 1) - (Num(dst[i + 1..]) - Num(a[i + 1..]))
  {
    var ai, di, at, t := a[i..], dst[i..], a[i + 1..], dst[i + 1..];
    assert a[i] == a[..i + 1][i] && dst[i] == dst[..i + 1][i];
    assert ai[1..] == at && di[1..] == t;
    TailIsExact(dst, i, at);
    LosingByte(ai, di);
    assert a[..i] == a[..i + 1][..i] && dst[..i] == dst[..i + 1][..i];
    PrefixSubtracts(a, dst, i);
  }

  lemma RingGrows(e: nat, f: nat)
    requires e <= f
    ensures Ring(e) <= Ring(f)
  {
    if e < f {
      RingGrows(e, f - 1);
      PowPositive(256, f - 1);
    }
  }

  lemma BelowByLessThan(a: Addr, dst: Addr, i: nat)
    requires 1 <= i < |dst| == |a| && Num(a) < Num(dst)
    requires Num(dst) - Num(a) <= Num(dst[i + 1..])
    ensures Far(a, dst) == Num(dst) - Num(a) - 1
  {
    NumBound(a);
    NumBound(dst);
    NumBound(dst[i + 1..]);
    RingSplits(|dst|);
    RingGrows(|dst| - i - 1, |dst| - 1);
  }

  /** a agrees with dst up to byte i and lies below it. */
  ghost predicate JustBelow(dst: Addr, i: nat, a: Addr) {
    && i < |dst| == |a| && a[..i + 1] == dst[..i + 1]
    && Num(a[i + 1..]) < Num(dst[i + 1..])
  }

  lemma MeasuredBelow(dst: Addr, i: nat, a: Addr)
    requires LastUnsafe(dst, i) && JustBelow(dst, i, a)
    ensures DistNum(a, dst) == 256 * Ring(|dst| - i - 1) - (Num(dst) - Num(a))
    ensures Far(a, dst) == Num(dst) - Num(a) - 1
  {
    WholeDifference(dst, i, a);
    PrefixCancels(a, dst, i + 1);
    BelowByLessThan(a, dst, i);
  }

  lemma SomeBelow(dst: Addr, i: nat) returns (a: Addr)
    requires LastUnsafe(dst, i)
    ensures JustBelow(dst, i, a)
  {
    var zeros := Zeros(|dst| - i - 1);
    a := dst[..i + 1] + zeros;
    assert a[i + 1..] == zeros;
    ZeroIff(zeros);
  }

  /** Every destination that is not borrow-safe has a byte at which the borrow is lost by whatever lies
      just below: there the measure is upside down, and what is closer measures farther. */
  lemma MeasuredUpsideDown(dst: Addr) returns (i: nat)
    requires !BorrowSafe(dst)
    ensures LastUnsafe(dst, i) && exists a :: JustBelow(dst, i, a)
    ensures forall a :: JustBelow(dst, i, a) ==>
              && DistNum(a, dst) == 256 * Ring(|dst| - i - 1) - (Num(dst) - Num(a))
              && Far(a, dst) == Num(dst) - Num(a) - 1
    ensures forall a, a' :: JustBelow(dst, i, a) && JustBelow(dst, i, a') ==>
              (Far(a, dst) < Far(a', dst) <==> DistNum(a', dst) < DistNum(a, dst))
  {
    i := FindLastUnsafe(dst);
    var below := SomeBelow(dst, i);
    forall a | JustBelow(dst, i, a)
      ensures DistNum(a, dst) == 256 * Ring(|dst| - i - 1) - (Num(dst) - Num(a))
      ensures Far(a, dst) == Num(dst) - Num(a) - 1
    {
      MeasuredBelow(dst, i, a);
    }
  }

  //// A router that misroutes

  /** An unsafe destination's shadow measures 0 to it from at least 255 positions away. */
  lemma ShadowIsFar(dst: Addr)
    requires !BorrowSafe(dst)
    ensures dst != [] && DistNum(Shadow(dst), dst) == 0 && Shadow(dst) != dst
    ensures Far(Shadow(dst), dst) >= 255 && TrueFar(Shadow(dst), dst) >= 255
  {
    DistZeroIff(Shadow(dst), dst);
    ShadowIsPredecessorIff(dst);
  }

  lemma UnsafeShadowNotZero(dst: Addr)
    requires !BorrowSafe(dst)
    ensures Shadow(dst) != Zeros(|dst|)
  {
    ShadowLosesIff(dst);
    ShadowTail(dst);
    ShadowNotZero(dst);
  }

  lemma AllOnesIsHighest(a: Addr)
    ensures Num(a) <= Num(AllOnes(|a|)) == Ring(|a|) - 1
    ensures a != AllOnes(|a|) ==> Num(a) + 1 < Ring(|a|)
  {
    OnesComplementZero(a);
    OnesComplementZero(AllOnes(|a|));
    NumBound(a);
  }

  lemma OneAbove(a: Addr, dst: Addr)
    requires |a| == |dst| > 0 && Num(a) == Num(dst) + 1
    ensures Far(a, dst) == TrueFar(a, dst) == 1
  {
    NumBound(a);
    RingSplits(|dst|);
  }

  lemma AtDestination(dst: Addr)
    requires dst != []
    ensures Far(dst, dst) == TrueFar(dst, dst) == 0
  {
    NumBound(dst);
  }

  lemma OneLeafEnds(self: Addr, net: NetAddr, k: nat, op: Op, s: State, dst: Addr)
    requires OneLeaf(self, net, k, op, s) && |dst| == |self|
    requires if GoesLeft(self, op.addr) then Num(op.addr) <= Num(dst) <= Num(self)
             else Num(self) <= Num(dst) <= Num(op.addr)
    ensures BetweenLeaves(s, dst)
  {
    if GoesLeft(self, op.addr) {
      assert Keys(s.left, false)[0] == Key(s.left[0], false);
    } else {
      assert Keys(s.right, true)[0] == Key(s.right[0], true);
    }
  }

  ghost predicate Misroutes(self: Addr, net: NetAddr, k: nat, op: Op, s: State, dst: Addr, x: Addr) {
    && OneLeaf(self, net, k, op, s) && |dst| == |self| == |x| && BetweenLeaves(s, dst)
    && Known(self, [op], x) && Far(x, dst) <= 1 && TrueFar(x, dst) <= 1
    && NextHopWith(s, dst, true).addr == Shadow(dst)
    && (NextHopWith(s, dst, true).isSet <==> Shadow(dst) != self)
  }

  lemma OnlyLeafIsTaken(dst: Addr, self: Addr, net: NetAddr, k: nat, op: Op, s: State)
    requires OneLeaf(self, net, k, op, s) && |dst| == |self| && op.addr == Shadow(dst)
    requires DistNum(Shadow(dst), dst) == 0 && self != dst && self != Shadow(dst)
    ensures var e := NextHopWith(s, dst, true); e.isSet && e.addr == Shadow(dst)
  {
    DistZeroIff(self, dst);
    CloserLeafIsPicked(self, net, k, op, s, dst);
    CmpIsNumericOrder(Shadow(dst), self);
  }

  /** A router one above the destination forwards to the shadow below. */
  lemma ForwardsToShadow(dst: Addr, net: NetAddr, other: NetAddr, k: nat) returns (self: Addr, op: Op, s: State)
    requires !BorrowSafe(dst) && k > 0 && dst != AllOnes(|dst|) && Num(Shadow(dst)) < Num(dst)
    ensures Misroutes(self, net, k, op, s, dst, self) && Num(self) == Num(dst) + 1 && GoesLeft(self, op.addr)
  {
    AllOnesIsHighest(dst);
    ShadowIsFar(dst);
    self := NumOnto(Num(dst) + 1, |dst|);
    op := Add(Shadow(dst), other);
    assert self != Zeros(|self|) by {
      ZeroIff(self);
    }
    assert GoesLeft(self, op.addr) by {
      CmpIsNumericOrder(Shadow(dst), self);
    }
    s := OneAdd(self, net, k, op);
    assert OneLeaf(self, net, k, op, s);
    OneLeafEnds(self, net, k, op, s, dst);
    OneAbove(self, dst);
    OnlyLeafIsTaken(dst, self, net, k, op, s);
  }

  /** A router that measures 0 to the destination keeps the packet. */
  lemma ZeroKeeps(s: State, dst: Addr)
    requires Inv(s) && |dst| == |s.self.addr| && DistNum(s.self.addr, dst) == 0
    ensures var e := NextHopWith(s, dst, true); !e.isSet && e.addr == s.self.addr
  {
    DisplacesFirst(dst, LeafsetBests(s, dst), s.self);
    CmpIsNumericOrder(s.self.addr, s.self.addr);
  }

  /** At the shadow itself a packet stays, even with the destination as the only leaf. */
  lemma ShadowKeeps(dst: Addr, net: NetAddr, other: NetAddr, k: nat) returns (s: State)
    requires !BorrowSafe(dst) && k > 0
    ensures |Shadow(dst)| == |dst| && Misroutes(Shadow(dst), net, k, Add(dst, other), s, dst, dst)
  {
    var self, op := Shadow(dst), Add(dst, other);
    ShadowIsFar(dst);
    UnsafeShadowNotZero(dst);
    CmpIsNumericOrder(dst, self);
    NumInjective(dst, self);
    s := OneAdd(self, net, k, op);
    OneLeafEnds(self, net, k, op, s, dst);
    AtDestination(dst);
    assert [op][0].addr == dst;
    ZeroKeeps(s, dst);
  }

  /** With the intended bounds: for every unsafe destination, one add leaves a router that takes the
      destination to lie between its leaves and whose next hop (self when unset) is the shadow, 255
      positions away or more, although the router knows, or is, an address at most one away. */
  lemma UnsafeDestinationIsMisrouted(dst: Addr, net: NetAddr, other: NetAddr, k: nat)
    returns (self: Addr, op: Op, s: State, x: Addr)
    requires !BorrowSafe(dst) && k > 0
    ensures Foreign(self, op) && Run(self, net, k, [op], [Init(self, net, k), s]) && AddsOnly([op])
    ensures Shape(s) && s.self.addr == self && |self| == |dst| && BetweenLeaves(s, dst)
    ensures var e := NextHopWith(s, dst, BetweenLeaves(s, dst));
            && e.addr == Shadow(dst) && (e.isSet <==> e.addr != self)
            && Far(e.addr, dst) >= 255 && TrueFar(e.addr, dst) >= 255
    ensures Known(self, [op], x) && |x| == |dst| && Far(x, dst) <= 1 && TrueFar(x, dst) <= 1
    ensures dst != AllOnes(|dst|) ==> OneLeaf(self, net, k, op, s) && GoesLeft(self, op.addr) && Num(dst) <= Num(self)
  {
    ShadowIsFar(dst);
    if dst != AllOnes(|dst|) && Num(Shadow(dst)) < Num(dst) {
      self, op, s := ForwardsToShadow(dst, net, other, k);
      x := self;
    } else {
      self, op, x := Shadow(dst), Add(dst, other), dst;
      s := ShadowKeeps(dst, net, other, k);
      CmpIsNumericOrder(dst, self);
      NumInjective(dst, self);
    }
  }

  //// The range test as it is written

  /** With nothing above the router, and the slot past the last left leaf read as zero, the written
      test passes for everything up to the router. */
  lemma PassesWithoutRight(self: Addr, net: NetAddr, k: nat, op: Op, s: State, dst: Addr, beyond: Beyond)
    requires OneLeaf(self, net, k, op, s) && GoesLeft(self, op.addr) && Num(dst) <= Num(self)
    requires Fits(s, dst, beyond) && (k >= 2 || beyond.left == Zeros(|dst|))
    ensures OnRange(s, dst, beyond) && (k >= 2 ==> BothShort(s))
  {
    FreeSlotsBlank(self, net, k, [op], [Init(self, net, k), s]);
    assert |Keys(s.left, false)| == 1 && |Keys(s.right, true)| == 0;
    CmpIsNumericOrder(Zeros(|dst|), dst);
    CmpIsNumericOrder(dst, self);
    ZeroIff(Zeros(|dst|));
  }

  /** As written, for the destination of all 0xFF bytes: its shadow, with a leafset full of that one
      destination, still keeps the packet when the test reads the destination past the array. */
  lemma HighestIsKept(dst: Addr, net: NetAddr, other: NetAddr, k: nat) returns (ss: seq<State>)
    requires !BorrowSafe(dst) && k > 0 && dst == AllOnes(|dst|)
    ensures Run(Shadow(dst), net, k, Repeat(dst, other, k), ss)
    ensures var s, beyond := ss[k], Beyond(dst, dst);
            && Fits(s, dst, beyond) && s.self.addr == Shadow(dst) && BetweenLeaves(s, dst)
            && OnRange(s, dst, beyond) && !NextHop(s, dst, beyond).isSet
            && NextHop(s, dst, beyond).addr == Shadow(dst)
  {
    var self, ops := Shadow(dst), Repeat(dst, other, k);
    ShadowIsFar(dst);
    UnsafeShadowNotZero(dst);
    AllOnesIsHighest(self);
    NumInjective(dst, self);
    CmpIsNumericOrder(dst, self);
    CmpIsNumericOrder(self, dst);
    CmpIsNumericOrder(dst, dst);
    ss := RunExists(self, net, k, ops);
    RunKeepsInv(self, net, k, ops, ss);
    LeafsetsRefineHeld(self, net, k, ops, ss);
    CopiesHeld(self, dst, other, k, k);
    FullOfCopies(ss[k].right, k, Num(dst));
    ZeroKeeps(ss[k], dst);
  }

  //// Optimal for every router

  /** A run of adds of some router of dst's address length. */
  ghost predicate AddsRun(self: Addr, net: NetAddr, k: nat, ops: seq<Op>, ss: seq<State>, dst: Addr) {
    && Run(self, net, k, ops, ss) && AddsOnly(ops) && |dst| == |self|
    && Inv(ss[|ops|]) && ss[|ops|].self.addr == self
  }

  /** With the intended bounds, no router knows anything nearer to dst than where it sends. */
  ghost predicate IntendedOptimal(dst: Addr, k: nat) {
    forall self, net, ops, ss ::
      AddsRun(self, net, k, ops, ss, dst) && BetweenLeaves(ss[|ops|], dst) ==>
        NoneNearer(self, ops, dst, NextHopWith(ss[|ops|], dst, BetweenLeaves(ss[|ops|], dst)).addr)
  }

  /** The same of the test as written, in the states `NextHopIsOptimal` covers, whatever lies past
      the arrays. */
  ghost predicate WrittenOptimal(dst: Addr, k: nat) {
    forall self, net, ops, ss, beyond ::
      AddsRun(self, net, k, ops, ss, dst) && Fits(ss[|ops|], dst, beyond) && OnRange(ss[|ops|], dst, beyond)
        && (BothShort(ss[|ops|]) || BetweenLeaves(ss[|ops|], dst)) ==>
          NoneNearer(self, ops, dst, NextHop(ss[|ops|], dst, beyond).addr)
  }

  /** The same of routers neither of whose sides is full: nothing outside the arrays is read. */
  ghost predicate ShortOptimal(dst: Addr, k: nat) {
    forall self, net, ops, ss, beyond ::
      AddsRun(self, net, k, ops, ss, dst) && Fits(ss[|ops|], dst, beyond) && OnRange(ss[|ops|], dst, beyond)
        && BothShort(ss[|ops|]) ==>
          NoneNearer(self, ops, dst, NextHop(ss[|ops|], dst, beyond).addr)
  }

  lemma SafeIsOptimal(dst: Addr, k: nat)
    requires BorrowSafe(dst)
    ensures IntendedOptimal(dst, k) && WrittenOptimal(dst, k)
  {
    forall self, net, ops, ss | AddsRun(self, net, k, ops, ss, dst) && BetweenLeaves(ss[|ops|], dst)
      ensures NoneNearer(self, ops, dst, NextHopWith(ss[|ops|], dst, BetweenLeaves(ss[|ops|], dst)).addr)
    {
      forall x | Known(self, ops, x) && |x| == |dst|
        ensures Far(NextHopWith(ss[|ops|], dst, true).addr, dst) <= Far(x, dst)
      {
        IntendedNextHopIsOptimal(self, net, k, ops, ss, dst, x);
      }
    }
    forall self, net, ops, ss, beyond
      | AddsRun(self, net, k, ops, ss, dst) && Fits(ss[|ops|], dst, beyond) && OnRange(ss[|ops|], dst, beyond)
        && (BothShort(ss[|ops|]) || BetweenLeaves(ss[|ops|], dst))
      ensures NoneNearer(self, ops, dst, NextHop(ss[|ops|], dst, beyond).addr)
    {
      forall x | Known(self, ops, x) && |x| == |dst|
        ensures Far(NextHop(ss[|ops|], dst, beyond).addr, dst) <= Far(x, dst)
      {
        NextHopIsOptimal(self, net, k, ops, ss, dst, beyond, x);
      }
    }
  }

  lemma RefutesIntended(dst: Addr, self: Addr, net: NetAddr, k: nat, ops: seq<Op>, ss: seq<State>, x: Addr)
    requires AddsRun(self, net, k, ops, ss, dst) && BetweenLeaves(ss[|ops|], dst)
    requires Known(self, ops, x) && |x| == |dst|
    requires Far(x, dst) < Far(NextHopWith(ss[|ops|], dst, BetweenLeaves(ss[|ops|], dst)).addr, dst)
    ensures !IntendedOptimal(dst, k)
  {
  }

  lemma RefutesWritten(dst: Addr, self: Addr, net: NetAddr, k: nat, ops: seq<Op>, ss: seq<State>,
                       beyond: Beyond, x: Addr)
    requires AddsRun(self, net, k, ops, ss, dst)
    requires Fits(ss[|ops|], dst, beyond) && OnRange(ss[|ops|], dst, beyond)
    requires BothShort(ss[|ops|]) || BetweenLeaves(ss[|ops|], dst)
    requires Known(self, ops, x) && |x| == |dst|
    requires Far(x, dst) < Far(NextHop(ss[|ops|], dst, beyond).addr, dst)
    ensures !WrittenOptimal(dst, k) && (BothShort(ss[|ops|]) ==> !ShortOptimal(dst, k))
  {
  }

  lemma OneCallRun(self: Addr, net: NetAddr, k: nat, op: Op, s: State, dst: Addr) returns (ss: seq<State>)
    requires Run(self, net, k, [op], [Init(self, net, k), s]) && AddsOnly([op]) && |dst| == |self|
    ensures AddsRun(self, net, k, [op], ss, dst) && ss[|[op]|] == s
  {
    ss := [Init(self, net, k), s];
    RunKeepsInv(self, net, k, [op], ss);
  }

  lemma UnsafeAsIntended(dst: Addr, k: nat)
    requires k > 0 && !BorrowSafe(dst)
    ensures !IntendedOptimal(dst, k)
  {
    var self, op, s, x := UnsafeDestinationIsMisrouted(dst, Unspecified, Unspecified, k);
    var ss := OneCallRun(self, Unspecified, k, op, s, dst);
    RefutesIntended(dst, self, Unspecified, k, [op], ss, x);
  }

  /** With the intended bounds the next hop is optimal for every router iff the destination is
      borrow-safe, for every leafset size. */
  lemma IntendedOptimalIff(dst: Addr, k: nat)
    requires k > 0
    ensures IntendedOptimal(dst, k) <==> BorrowSafe(dst)
  {
    if BorrowSafe(dst) {
      SafeIsOptimal(dst, k);
    } else {
      UnsafeAsIntended(dst, k);
    }
  }

  lemma UnsafeAsWritten(dst: Addr, k: nat)
    requires k > 0 && !BorrowSafe(dst) && dst != AllOnes(|dst|)
    ensures !WrittenOptimal(dst, k) && (k >= 2 ==> !ShortOptimal(dst, k))
  {
    var self, op, s, x := UnsafeDestinationIsMisrouted(dst, Unspecified, Unspecified, k);
    var beyond := Beyond(Zeros(|dst|), Zeros(|dst|));
    var ss := OneCallRun(self, Unspecified, k, op, s, dst);
    PassesWithoutRight(self, Unspecified, k, op, s, dst, beyond);
    RefutesWritten(dst, self, Unspecified, k, [op], ss, beyond, x);
  }

  lemma HighestRun(dst: Addr, other: NetAddr, k: nat, net: NetAddr, ss: seq<State>)
    requires dst != [] && |Shadow(dst)| == |dst| && Run(Shadow(dst), net, k, Repeat(dst, other, k), ss)
    ensures AddsRun(Shadow(dst), net, k, Repeat(dst, other, k), ss, dst)
    ensures Known(Shadow(dst), Repeat(dst, other, k), dst)
  {
    var ops := Repeat(dst, other, k);
    RunKeepsInv(Shadow(dst), net, k, ops, ss);
    assert ops[0].addr == dst;
  }

  lemma HighestAsWritten(dst: Addr, k: nat)
    requires k > 0 && !BorrowSafe(dst) && dst == AllOnes(|dst|)
    ensures !WrittenOptimal(dst, k)
  {
    var ss := HighestIsKept(dst, Unspecified, Unspecified, k);
    ShadowIsFar(dst);
    AtDestination(dst);
    HighestRun(dst, Unspecified, k, Unspecified, ss);
    RefutesWritten(dst, Shadow(dst), Unspecified, k, Repeat(dst, Unspecified, k), ss, Beyond(dst, dst), dst);
  }

  /** As written: the next hop is optimal for every router iff the destination is borrow-safe, for
      every leafset size. */
  lemma WrittenOptimalIff(dst: Addr, k: nat)
    requires k > 0
    ensures WrittenOptimal(dst, k) <==> BorrowSafe(dst)
  {
    if BorrowSafe(dst) {
      SafeIsOptimal(dst, k);
    } else if dst != AllOnes(|dst|) {
      UnsafeAsWritten(dst, k);
    } else {
      HighestAsWritten(dst, k);
    }
  }

  /** Two exceptions when neither side is full: for the highest address only the router at it passes
      the test, and a leafset of one that is not full is empty. */
  lemma ShortIsOptimal(self: Addr, net: NetAddr, k: nat, ops: seq<Op>, ss: seq<State>, dst: Addr, beyond: Beyond)
    requires AddsRun(self, net, k, ops, ss, dst) && Fits(ss[|ops|], dst, beyond) && OnRange(ss[|ops|], dst, beyond)
    requires BothShort(ss[|ops|]) && !BorrowSafe(dst) && (dst == AllOnes(|dst|) || k == 1)
    ensures NoneNearer(self, ops, dst, NextHop(ss[|ops|], dst, beyond).addr)
  {
    var s := ss[|ops|];
    if dst == AllOnes(|dst|) {
      RangeTestIff(self, net, k, ops, ss, dst, beyond);
      AllOnesIsHighest(self);
      NumInjective(self, dst);
      OwnAddressStays(s, true);
      AtDestination(dst);
      HopOrSelf(s, dst);
    } else {
      RunKeepsInv(self, net, k, ops, ss);
      forall x | Known(self, ops, x) && |x| == |dst| ensures x == self {
        if x != self {
          HeldOrBeyond(self, net, k, ops, ss, x);
        }
      }
      HopOrSelf(s, dst);
    }
  }

  lemma HopOrSelf(s: State, dst: Addr)
    requires Inv(s) && |dst| == |s.self.addr|
    ensures var e := NextHopWith(s, dst, true);
            (!e.isSet ==> e.addr == s.self.addr) && (SetPrefix(s.left) == SetPrefix(s.right) == 0 ==> !e.isSet)
  {
    HopMakesProgress(s, dst, true);
    LeafsetPickIsNearest(s, dst, s.self);
    CmpIsNumericOrder(LeafsetPick(s, dst).addr, s.self.addr);
    DisplacesFirst(dst, LeafsetBests(s, dst), s.self);
    ClosestComesFrom(dst, s.left, None, 0, s.self);
    ClosestComesFrom(dst, s.right, None, 0, s.self);
  }

  /** As written, with neither side full: optimal for every router iff the destination is borrow-safe,
      is the highest address, or the leafsets have a single slot. */
  lemma ShortOptimalIff(dst: Addr, k: nat)
    requires k > 0
    ensures ShortOptimal(dst, k) <==> BorrowSafe(dst) || dst == AllOnes(|dst|) || k == 1
  {
    if BorrowSafe(dst) {
      SafeIsOptimal(dst, k);
    } else if dst == AllOnes(|dst|) || k == 1 {
      forall self, net, ops, ss, beyond
        | AddsRun(self, net, k, ops, ss, dst) && Fits(ss[|ops|], dst, beyond) && OnRange(ss[|ops|], dst, beyond)
          && BothShort(ss[|ops|])
        ensures NoneNearer(self, ops, dst, NextHop(ss[|ops|], dst, beyond).addr)
      {
        ShortIsOptimal(self, net, k, ops, ss, dst, beyond);
      }
    } else {
      UnsafeAsWritten(dst, k);
    }
  }
}
