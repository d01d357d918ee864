/** Routers that have added one address only: where they send, and when two of them send a packet back
    and forth for good. */
module Bounces {
  import opened Numerals
  import opened Address
  import opened RingDistance
  import opened Entries
  import opened Leafsets
  import opened RouterStates
  import opened NextHops
  import opened Optimality
  import opened RunsExist
  import opened LoopFreedom

  //// A router that knows one other

  lemma OnlySetLeaf(self: Addr, net: NetAddr, k: nat, op: Op, s: State, e: Entry)
    requires OneLeaf(self, net, k, op, s) && e.isSet && (e in s.left || e in s.right)
    ensures e == Written(op)
  {
    var s0 := Init(self, net, k);
    InitInv(self, net, k);
    assert Step(s0, [op][0], [s0, s][1]);
    if GoesLeft(self, op.addr) {
      InsertKeepsNearest(s0.left, s.left, Written(op), false);
    } else {
      InsertKeepsNearest(s0.right, s.right, Written(op), true);
    }
  }

  lemma LeafEntry(self: Addr, net: NetAddr, k: nat, op: Op, s: State) returns (e: Entry)
    requires OneLeaf(self, net, k, op, s)
    ensures e.isSet && e.addr == op.addr && (e in s.left || e in s.right)
  {
    var right := !GoesLeft(self, op.addr);
    var es := if right then s.right else s.left;
    assert KeyOfAddr(op.addr, right) == Keys(es, right)[0];
    KeyNamesLeaf(es, op.addr, right);
    e :| e in es && e.isSet && e.addr == op.addr;
  }

  /** A slot of the table is set only where the one address indexes to. */
  lemma OnlySlot(self: Addr, net: NetAddr, k: nat, op: Op, s: State, l: nat, c: nat)
    requires OneLeaf(self, net, k, op, s) && l < 2 * |self| && c < COLUMNS
    ensures s.table[l][c] == if Indexes(self, op, l, c) then Written(op) else Blank(|self|)
  {
    var ss := [Init(self, net, k), s];
    TableIsHistory(self, net, k, [op], ss, l, c);
    assert ss[|[op]|] == s;
    assert [op][..0] == [];
  }

  lemma OnlyHeld(self: Addr, net: NetAddr, k: nat, op: Op, s: State, e: Entry)
    requires OneLeaf(self, net, k, op, s) && e.isSet && HeldBy(s, e)
    ensures e == Written(op)
  {
    if HeldInTable(s, e) {
      var l, c :| 0 <= l < |s.table| && 0 <= c < |s.table[l]| && s.table[l][c] == e;
      OnlySlot(self, net, k, op, s, l, c);
    } else {
      OnlySetLeaf(self, net, k, op, s, e);
    }
  }

  /** Whatever shares more nibbles with dst than self does indexes to dst's slot. */
  lemma SharesSlot(self: Addr, dst: Addr, b: Addr)
    requires |self| == |dst| == |b| && Level(b, dst) > Level(self, dst)
    ensures Level(self, b) == Level(self, dst) && Column(self, b) == Column(self, dst)
  {
    var ha, hb, hd, l := Nibbles(self), Nibbles(b), Nibbles(dst), Level(self, dst);
    ShorterPrefix(hb, hd, Level(b, dst), l + 1);
    ShorterPrefix(hb, hd, l + 1, l);
    assert hb[l] == hb[..l + 1][l] == hd[..l + 1][l] == hd[l];
    SharedIs(ha, hb, l);
  }

  /** The leafset branch answers with the one leaf exactly when it measures closer than self. */
  lemma OnlyLeafHopIff(self: Addr, net: NetAddr, k: nat, op: Op, s: State, dst: Addr)
    requires OneLeaf(self, net, k, op, s) && |dst| == |self|
    ensures var e := NextHopWith(s, dst, true);
            && (e.isSet <==> DistNum(op.addr, dst) < DistNum(self, dst))
            && (e.isSet ==> e == Written(op))
  {
    LeafsetHop(s, dst);
    if NextHopWith(s, dst, true).isSet {
      OnlyHeld(self, net, k, op, s, NextHopWith(s, dst, true));
    }
    if DistNum(op.addr, dst) < DistNum(self, dst) {
      CloserLeafIsPicked(self, net, k, op, s, dst);
      CmpIsNumericOrder(op.addr, self);
    }
  }

  lemma LowerRankIsTaken(self: Addr, net: NetAddr, k: nat, op: Op, s: State, dst: Addr)
    requires OneLeaf(self, net, k, op, s) && |dst| == |self| && Below(RankOf(op.addr, dst), RankOf(self, dst))
    ensures NextHopWith(s, dst, false).isSet
  {
    var l, c := Level(self, dst), Column(self, dst);
    LevelSymmetric(op.addr, dst);
    LevelSymmetric(self, dst);
    SelfDistance(dst);
    if Level(op.addr, dst) > l {
      SharesSlot(self, dst, op.addr);
      OnlySlot(self, net, k, op, s, l, c);
    } else if BranchTaken(s, dst, false) == BestAnswer {
      var e := LeafEntry(self, net, k, op, s);
      LevelChains(dst, self, op.addr, l);
      AnswerPickIsNearest(s, dst, e);
      CmpIsNumericOrder(AnswerPick(s, dst).addr, self);
    }
  }

  /** The table and the best answer give the one address known exactly when it ranks below self. */
  lemma OnlyTableHopIff(self: Addr, net: NetAddr, k: nat, op: Op, s: State, dst: Addr)
    requires OneLeaf(self, net, k, op, s) && |dst| == |self|
    ensures var e := NextHopWith(s, dst, false);
            && (e.isSet <==> Below(RankOf(op.addr, dst), RankOf(self, dst)))
            && (e.isSet ==> e == Written(op))
  {
    HopMakesProgress(s, dst, false);
    if NextHopWith(s, dst, false).isSet {
      OnlyHeld(self, net, k, op, s, NextHopWith(s, dst, false));
    }
    if Below(RankOf(op.addr, dst), RankOf(self, dst)) {
      LowerRankIsTaken(self, net, k, op, s, dst);
    }
  }

  /** A packet for that address is sent there, whichever branch is taken, unless self measures 0 to it. */
  lemma KnownIsReached(self: Addr, net: NetAddr, k: nat, op: Op, s: State, inRange: bool)
    requires OneLeaf(self, net, k, op, s) && DistNum(self, op.addr) > 0
    ensures NextHopWith(s, op.addr, inRange) == Written(op)
  {
    OnlyLeafHopIff(self, net, k, op, s, op.addr);
    OnlyTableHopIff(self, net, k, op, s, op.addr);
    SelfDistance(op.addr);
    LevelSymmetric(op.addr, op.addr);
    LevelSymmetric(self, op.addr);
  }

  //// Two routers that know only each other

  /** low and high are what adding the other leaves of fresh routers at a and b. */
  ghost predicate Pair(a: Addr, b: Addr, netA: NetAddr, netB: NetAddr, k: nat, low: State, high: State) {
    && Run(a, netA, k, [Add(b, netB)], [Init(a, netA, k), low])
    && Run(b, netB, k, [Add(a, netA)], [Init(b, netB, k), high])
  }

  lemma PairLeaves(a: Addr, b: Addr, netA: NetAddr, netB: NetAddr, k: nat, low: State, high: State)
    requires Pair(a, b, netA, netB, k, low, high)
    ensures OneLeaf(a, netA, k, Add(b, netB), low) && OneLeaf(b, netB, k, Add(a, netA), high)
    ensures |a| == |b| && a != b && a != Zeros(|a|) && b != Zeros(|b|)
  {
    AfterOneAdd(a, netA, k, Add(b, netB), low);
    AfterOneAdd(b, netB, k, Add(a, netA), high);
    assert Step(Init(a, netA, k), [Add(b, netB)][0], [Init(a, netA, k), low][1]);
    assert Step(Init(b, netB, k), [Add(a, netA)][0], [Init(b, netB, k), high][1]);
    FirstCallNeedsNonZero(a, netA, k, Add(b, netB), Init(a, netA, k));
    FirstCallNeedsNonZero(b, netB, k, Add(a, netA), Init(b, netB, k));
  }

  /** x is measured closer to dst than y, and yet shares fewer nibbles with it. */
  ghost predicate CloserButFewer(x: Addr, y: Addr, dst: Addr)
    requires |x| == |y| == |dst| > 0
  {
    Level(x, dst) < Level(y, dst) && DistNum(x, dst) < DistNum(y, dst)
  }

  /** Whatever the two range tests answer: the two bounce a packet for good exactly when just one of
      them consults its leafsets, and the other is closer to the destination but shares fewer nibbles. */
  lemma BounceIff(a: Addr, b: Addr, netA: NetAddr, netB: NetAddr, k: nat, low: State, high: State,
                  dst: Addr, inA: bool, inB: bool)
    requires Pair(a, b, netA, netB, k, low, high) && |dst| == |a|
    ensures |a| == |b| == |dst| > 0
    ensures (forall len: nat :: Path(dst, Bounce(Hop(low, inA), Hop(high, inB), len)))
       <==> (!inA && inB && CloserButFewer(a, b, dst)) || (inA && !inB && CloserButFewer(b, a, dst))
  {
    PairLeaves(a, b, netA, netB, k, low, high);
    BouncesIff(dst, Hop(low, inA), Hop(high, inB));
    OnlyLeafHopIff(a, netA, k, Add(b, netB), low, dst);
    OnlyTableHopIff(a, netA, k, Add(b, netB), low, dst);
    OnlyLeafHopIff(b, netB, k, Add(a, netA), high, dst);
    OnlyTableHopIff(b, netB, k, Add(a, netA), high, dst);
  }

  /** The router below never consults its leafsets as written, and the one above does for everything
      up to itself. */
  lemma PairRanges(a: Addr, b: Addr, netA: NetAddr, netB: NetAddr, k: nat, low: State, high: State,
                   dst: Addr, beyond: Beyond)
    requires Pair(a, b, netA, netB, k, low, high) && k >= 2 && Num(a) < Num(b)
    requires |dst| == |beyond.left| == |beyond.right| == |a|
    ensures Fits(low, dst, beyond) && Fits(high, dst, beyond) && BothShort(low) && BothShort(high)
    ensures !OnRange(low, dst, beyond) && (OnRange(high, dst, beyond) <==> Num(dst) <= Num(b))
  {
    PairLeaves(a, b, netA, netB, k, low, high);
    CmpIsNumericOrder(a, b);
    CmpIsNumericOrder(b, a);
    assert |Keys(low.right, true)| == 1 && |Keys(low.left, false)| == 0;
    assert |Keys(high.right, true)| == 0 && |Keys(high.left, false)| == 1;
    var lows, highs := [Init(a, netA, k), low], [Init(b, netB, k), high];
    assert lows[|[Add(b, netB)]|] == low && highs[|[Add(a, netA)]|] == high;
    RangeTestIff(a, netA, k, [Add(b, netB)], lows, dst, beyond);
    RangeTestIff(b, netB, k, [Add(a, netA)], highs, dst, beyond);
    ZeroIff(a);
    ZeroIff(Zeros(|a|));
    NumInjective(a, Zeros(|a|));
  }

  /** As written, whatever lies past the arrays: two routers that know only each other bounce a packet
      for good exactly when its destination is not above both, and the lower router measures closer to
      it but shares fewer nibbles. */
  lemma WrittenBounceIff(a: Addr, b: Addr, netA: NetAddr, netB: NetAddr, k: nat, low: State, high: State,
                         dst: Addr, beyond: Beyond)
    requires Pair(a, b, netA, netB, k, low, high) && k >= 2 && Num(a) < Num(b)
    requires |dst| == |beyond.left| == |beyond.right| == |a|
    ensures |a| == |b| == |dst| > 0 && Fits(low, dst, beyond) && Fits(high, dst, beyond)
    ensures (forall len: nat ::
               Path(dst, Bounce(Hop(low, OnRange(low, dst, beyond)), Hop(high, OnRange(high, dst, beyond)), len)))
       <==> Num(dst) <= Num(b) && CloserButFewer(a, b, dst)
  {
    PairRanges(a, b, netA, netB, k, low, high, dst, beyond);
    BounceIff(a, b, netA, netB, k, low, high, dst, OnRange(low, dst, beyond), OnRange(high, dst, beyond));
  }

  lemma PairBetween(a: Addr, b: Addr, netA: NetAddr, netB: NetAddr, k: nat, low: State, high: State, dst: Addr)
    requires Pair(a, b, netA, netB, k, low, high) && |dst| == |a| && Num(a) < Num(b)
    ensures Shape(low) && Shape(high) && |low.self.addr| == |high.self.addr| == |dst|
    ensures BetweenLeaves(low, dst) <==> Num(a) <= Num(dst) <= Num(b)
    ensures BetweenLeaves(high, dst) <==> Num(a) <= Num(dst) <= Num(b)
  {
    PairLeaves(a, b, netA, netB, k, low, high);
    CmpIsNumericOrder(a, b);
    CmpIsNumericOrder(b, a);
    assert Keys(low.right, true)[0] == Key(low.right[0], true) && |Keys(low.left, false)| == 0;
    assert Keys(high.left, false)[0] == Key(high.left[0], false) && |Keys(high.right, true)| == 0;
  }

  /** With the intended bounds the two tests agree, so two routers that know only each other never
      bounce a packet, wherever they are and wherever it goes. */
  lemma IntendedNeverBounces(a: Addr, b: Addr, netA: NetAddr, netB: NetAddr, k: nat, low: State, high: State, dst: Addr)
    requires Pair(a, b, netA, netB, k, low, high) && |dst| == |a|
    ensures Shape(low) && Shape(high) && |low.self.addr| == |high.self.addr| == |dst|
    ensures !forall len: nat ::
              Path(dst, Bounce(Hop(low, BetweenLeaves(low, dst)), Hop(high, BetweenLeaves(high, dst)), len))
  {
    PairLeaves(a, b, netA, netB, k, low, high);
    NumInjective(a, b);
    if Num(a) < Num(b) {
      PairBetween(a, b, netA, netB, k, low, high, dst);
    } else {
      PairBetween(b, a, netB, netA, k, high, low, dst);
    }
    BounceIff(a, b, netA, netB, k, low, high, dst, BetweenLeaves(low, dst), BetweenLeaves(high, dst));
  }

  //// A loop

  function Top(b: byte, n: nat): (a: Addr)
    requires n > 0
    ensures |a| == n
  {
    [b] + Zeros(n - 1)
  }

  lemma TopNum(b: byte, n: nat)
    requires n > 0
    ensures Num(Top(b, n)) == b * Ring(n - 1)
  {
    assert Top(b, n)[1..] == Zeros(n - 1);
    ZeroIff(Zeros(n - 1));
  }

  lemma TopOrder(a: byte, b: byte, n: nat)
    requires n > 0 && a < b
    ensures Num(Top(a, n)) < Num(Top(b, n)) && Top(a, n) != Top(b, n)
    ensures GoesLeft(Top(b, n), Top(a, n)) && !GoesLeft(Top(a, n), Top(b, n))
  {
    TopNum(a, n);
    TopNum(b, n);
    PowPositive(256, n - 1);
    Scale(a + 1, b, Ring(n - 1));
    assert (a + 1) * Ring(n - 1) == a * Ring(n - 1) + Ring(n - 1);
    CmpIsNumericOrder(Top(a, n), Top(b, n));
    CmpIsNumericOrder(Top(b, n), Top(a, n));
  }

  lemma TopBorrowSafe(b: byte, n: nat)
    requires n > 0
    ensures BorrowSafe(Top(b, n))
  {
  }

  lemma TopDistance(a: byte, b: byte, n: nat)
    requires n > 0 && b - 128 < a as int < b + 128 && a != b
    ensures Far(Top(a, n), Top(b, n)) == DistNum(Top(a, n), Top(b, n))
              == if a < b then (b - a) * Ring(n - 1) - 1 else (a - b) * Ring(n - 1)
  {
    TopBorrowSafe(b, n);
    FarIsComputed(Top(a, n), Top(b, n));
    TopNum(a, n);
    TopNum(b, n);
    RingSplits(n);
    FoldScaled(a, b, Ring(n - 1));
  }

  lemma FoldScaled(x: int, y: int, p: nat)
    requires 0 <= x < 256 && 0 <= y < 256 && -128 < x - y < 128 && x != y && p > 0
    ensures 0 <= x * p < 256 * p && 0 <= y * p < 256 * p
    ensures FoldDist(x * p, y * p, 256 * p) == if x < y then (y - x) * p - 1 else (x - y) * p
  {
    Scale(x, 255, p);
    Scale(y, 255, p);
    assert x * p - y * p == (x - y) * p;
    if x < y {
      Scale(1, y - x, p);
      Scale(y - x, 127, p);
      assert (y - x) * p == y * p - x * p;
    } else {
      Scale(1, x - y, p);
      Scale(x - y, 127, p);
    }
  }

  lemma TopLevel(a: byte, b: byte, n: nat)
    requires n > 0
    ensures Level(Top(a, n), Top(b, n)) > 0 <==> a / 16 == b / 16
  {
    var ha, hb := Nibbles(Top(a, n)), Nibbles(Top(b, n));
    assert ha[0] == a / 16 && hb[0] == b / 16;
    if a / 16 == b / 16 {
      assert ha[..1] == hb[..1];
      SharedIs(ha, hb, 1);
    } else {
      SharedIs(ha, hb, 0);
    }
  }

  /** From 1e00.. or 1f00.. and from 2f00.., the way to 2000... */
  lemma LowerIsCloserButFewer(a: byte, n: nat)
    requires n > 0 && (a == 0x1e || a == 0x1f)
    ensures CloserButFewer(Top(a, n), Top(0x2f, n), Top(0x20, n))
  {
    TopLevel(a, 0x20, n);
    TopLevel(0x2f, 0x20, n);
    TopDistance(a, 0x20, n);
    TopDistance(0x2f, 0x20, n);
    PowPositive(256, n - 1);
    FewerTimes(0x20 - a, Ring(n - 1));
  }

  lemma FewerTimes(x: int, p: nat)
    requires x <= 2 && p > 0
    ensures x * p - 1 < 15 * p
  {
    Scale(x, 2, p);
  }

  lemma PairExists(a: Addr, b: Addr, netA: NetAddr, netB: NetAddr, k: nat) returns (low: State, high: State)
    requires |a| == |b| > 0 && a != b && a != Zeros(|a|) && b != Zeros(|b|) && k > 0
    ensures Pair(a, b, netA, netB, k, low, high)
  {
    low := OneAdd(a, netA, k, Add(b, netB));
    high := OneAdd(b, netB, k, Add(a, netA));
  }

  /** Such pairs exist for every address length and leafset size from 2: 1f00.. and 2f00.. bounce what
      is sent to 2000.., whatever memory lies past the arrays. */
  lemma RoutingLoop(n: nat, k: nat, netA: NetAddr, netB: NetAddr, beyond: Beyond) returns (lower: State, upper: State)
    requires n > 0 && k >= 2 && |beyond.left| == |beyond.right| == n
    ensures var a, b, dst := Top(0x1f, n), Top(0x2f, n), Top(0x20, n);
            && Run(a, netA, k, [Add(b, netB)], [Init(a, netA, k), lower])
            && Run(b, netB, k, [Add(a, netA)], [Init(b, netB, k), upper])
            && Fits(lower, dst, beyond) && Fits(upper, dst, beyond)
            && var h, g := Hop(lower, OnRange(lower, dst, beyond)), Hop(upper, OnRange(upper, dst, beyond));
               forall len: nat :: Path(dst, Bounce(h, g, len))
  {
    var a, b, dst := Top(0x1f, n), Top(0x2f, n), Top(0x20, n);
    TopOrder(0x1f, 0x2f, n);
    TopOrder(0x20, 0x2f, n);
    assert a[0] != 0 && b[0] != 0;
    lower, upper := PairExists(a, b, netA, netB, k);
    LowerIsCloserButFewer(0x1f, n);
    WrittenBounceIff(a, b, netA, netB, k, lower, upper, dst, beyond);
  }

  /** The lower of them: the range test misses a destination between the leaves, and the next hop is
      farther from it than the router itself. */
  lemma WrittenRangeTestMisses(n: nat, k: nat, net: NetAddr, up: NetAddr, beyond: Beyond) returns (s: State)
    requires n > 0 && k >= 2 && |beyond.left| == |beyond.right| == n
    ensures var a, dst := Top(0x1f, n), Top(0x20, n);
            && Run(a, net, k, [Add(Top(0x2f, n), up)], [Init(a, net, k), s])
            && Fits(s, dst, beyond) && BetweenLeaves(s, dst) && BorrowSafe(dst)
            && NextHop(s, dst, beyond).isSet
            && Far(a, dst) < Far(NextHop(s, dst, beyond).addr, dst)
  {
    var a, b, dst := Top(0x1f, n), Top(0x2f, n), Top(0x20, n);
    var high;
    TopOrder(0x1f, 0x2f, n);
    TopOrder(0x1f, 0x20, n);
    TopOrder(0x20, 0x2f, n);
    assert a[0] != 0 && b[0] != 0;
    s, high := PairExists(a, b, net, up, k);
    PairLeaves(a, b, net, up, k, s, high);
    PairRanges(a, b, net, up, k, s, high, dst, beyond);
    PairBetween(a, b, net, up, k, s, high, dst);
    OnlyTableHopIff(a, net, k, Add(b, up), s, dst);
    LowerIsCloserButFewer(0x1f, n);
    TopBorrowSafe(0x20, n);
    TopDistance(0x1f, 0x20, n);
    TopDistance(0x2f, 0x20, n);
  }
}
