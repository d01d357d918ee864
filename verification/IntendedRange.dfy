/** With the intended leafset bounds two routers can still send a packet back and forth, once one of
    them holds nearer leaves than the other. */
module IntendedRange {
  import opened Options
  import opened Address
  import opened Entries
  import opened Sorting
  import opened Leafsets
  import opened RouterStates
  import opened NextHops
  import opened RunsExist
  import opened LoopFreedom
  import opened Bounces

  /** As many adds of d as a leafset holds, then one of b. */
  function Crowd(d: Addr, netD: NetAddr, k: nat, b: Addr, netB: NetAddr): (ops: seq<Op>)
    ensures |ops| == k + 1 && ops[k] == Add(b, netB) && ops[..k] == Repeat(d, netD, k)
  {
    Repeat(d, netD, k) + [Add(b, netB)]
  }

  /** low is a router at a that has added d k times and then b; high one at b that has added a. */
  ghost predicate Crowded(a: Addr, d: Addr, b: Addr, netA: NetAddr, netD: NetAddr, netB: NetAddr, k: nat,
                          ss: seq<State>, low: State, high: State) {
    && Run(a, netA, k, Crowd(d, netD, k, b, netB), ss) && low == ss[k + 1]
    && Run(b, netB, k, [Add(a, netA)], [Init(b, netB, k), high])
    && Num(a) < Num(d) < Num(b) && |d| == |a| == |b|
  }

  lemma CrowdHeld(a: Addr, d: Addr, netD: NetAddr, k: nat, b: Addr, netB: NetAddr)
    requires |a| == |b| == |d| && Num(a) < Num(d) < Num(b) && k > 0
    ensures Held(a, Crowd(d, netD, k, b, netB), k, true) == Copies(Num(d), k)
    ensures Held(a, Crowd(d, netD, k, b, netB), k, false) == []
  {
    CmpIsNumericOrder(d, a);
    CmpIsNumericOrder(b, a);
    CopiesHeld(a, d, netD, k, k);
    InsertPastEnd(Copies(Num(d), k), Num(b));
  }

  /** b has been pushed out: the right leafset is full of d, the left one empty. */
  lemma CrowdLeaves(a: Addr, d: Addr, b: Addr, netA: NetAddr, netD: NetAddr, netB: NetAddr, k: nat,
                    ss: seq<State>, low: State, high: State)
    requires Crowded(a, d, b, netA, netD, netB, k, ss, low, high)
    ensures Inv(low) && low.self.addr == a && |low.right| == k > 0
    ensures SetPrefix(low.left) == 0 && SetPrefix(low.right) == k
    ensures forall i :: 0 <= i < k ==> low.right[i].addr == d
  {
    var ops := Crowd(d, netD, k, b, netB);
    RunKeepsInv(a, netA, k, ops, ss);
    LeafsetsRefineHeld(a, netA, k, ops, ss);
    CrowdHeld(a, d, netD, k, b, netB);
    FullOfCopies(low.right, k, Num(d));
    assert |Keys(low.left, false)| == 0;
    forall i | 0 <= i < k ensures low.right[i].addr == d {
      NumInjective(low.right[i].addr, d);
    }
  }

  lemma CrowdBetween(a: Addr, d: Addr, b: Addr, netA: NetAddr, netD: NetAddr, netB: NetAddr, k: nat,
                     ss: seq<State>, low: State, high: State, dst: Addr)
    requires Crowded(a, d, b, netA, netD, netB, k, ss, low, high) && |dst| == |a|
    ensures Shape(low) && |low.self.addr| == |dst|
    ensures BetweenLeaves(low, dst) <==> Num(a) <= Num(dst) <= Num(d)
  {
    CrowdLeaves(a, d, b, netA, netD, netB, k, ss, low, high);
  }

  lemma HighBetween(a: Addr, b: Addr, netA: NetAddr, netB: NetAddr, k: nat, high: State, dst: Addr)
    requires OneLeaf(b, netB, k, Add(a, netA), high) && |dst| == |a| && Num(a) < Num(b)
    ensures BetweenLeaves(high, dst) <==> Num(a) <= Num(dst) <= Num(b)
  {
    CmpIsNumericOrder(a, b);
    assert Keys(high.left, false)[0] == Key(high.left[0], false) && |Keys(high.right, true)| == 0;
  }

  /** From its leafsets the lower router answers with d if with anyone. */
  lemma CrowdPicksNear(a: Addr, d: Addr, b: Addr, netA: NetAddr, netD: NetAddr, netB: NetAddr, k: nat,
                       ss: seq<State>, low: State, high: State, dst: Addr)
    requires Crowded(a, d, b, netA, netD, netB, k, ss, low, high) && |dst| == |a|
    ensures Shape(low) && |low.self.addr| == |dst|
    ensures var e := NextHopWith(low, dst, true); e.isSet ==> e.addr == d
  {
    CrowdLeaves(a, d, b, netA, netD, netB, k, ss, low, high);
    DisplacesFirst(dst, LeafsetBests(low, dst), low.self);
    ClosestComesFrom(dst, low.left, None, 0, low.self);
    ClosestComesFrom(dst, low.right, None, 0, low.self);
    CmpIsNumericOrder(a, a);
    SetLeavesAreListed(low.left, false);
    SetLeavesAreListed(low.right, true);
  }

  /** Away from its leafsets it forwards to b whenever b shares more nibbles with the destination. */
  lemma CrowdTakesTable(a: Addr, d: Addr, b: Addr, netA: NetAddr, netD: NetAddr, netB: NetAddr, k: nat,
                        ss: seq<State>, low: State, high: State, dst: Addr)
    requires Crowded(a, d, b, netA, netD, netB, k, ss, low, high) && |dst| == |a| && Level(a, dst) < Level(b, dst)
    ensures Shape(low) && |low.self.addr| == |dst|
    ensures NextHopWith(low, dst, false) == Entry(true, b, netB)
  {
    var ops, l, c := Crowd(d, netD, k, b, netB), Level(a, dst), Column(a, dst);
    CrowdLeaves(a, d, b, netA, netD, netB, k, ss, low, high);
    SharesSlot(a, dst, b);
    TableIsHistory(a, netA, k, ops, ss, l, c);
    assert LastAt(a, ops, l, c) == Some(ops[k]);
  }

  /** With the intended bounds, for every leafset size: the crowded router and the one above it bounce a
      packet for good exactly when its destination lies past the near leaves and not above both, and the
      lower router measures closer to it but shares fewer nibbles. */
  lemma IntendedBounceIff(a: Addr, d: Addr, b: Addr, netA: NetAddr, netD: NetAddr, netB: NetAddr, k: nat,
                          ss: seq<State>, low: State, high: State, dst: Addr)
    requires Crowded(a, d, b, netA, netD, netB, k, ss, low, high) && |dst| == |a|
    ensures |a| == |b| == |dst| > 0
    ensures Shape(low) && Shape(high) && |low.self.addr| == |high.self.addr| == |dst|
    ensures (forall len: nat ::
               Path(dst, Bounce(Hop(low, BetweenLeaves(low, dst)), Hop(high, BetweenLeaves(high, dst)), len)))
       <==> Num(d) < Num(dst) <= Num(b) && CloserButFewer(a, b, dst)
  {
    var op := Add(a, netA);
    AfterOneAdd(b, netB, k, op, high);
    CrowdLeaves(a, d, b, netA, netD, netB, k, ss, low, high);
    CrowdBetween(a, d, b, netA, netD, netB, k, ss, low, high, dst);
    HighBetween(a, b, netA, netB, k, high, dst);
    CrowdPicksNear(a, d, b, netA, netD, netB, k, ss, low, high, dst);
    HopMakesProgress(low, dst, false);
    OnlyLeafHopIff(b, netB, k, op, high, dst);
    OnlyTableHopIff(b, netB, k, op, high, dst);
    if Level(a, dst) < Level(b, dst) {
      CrowdTakesTable(a, d, b, netA, netD, netB, k, ss, low, high, dst);
    }
    BouncesIff(dst, Hop(low, BetweenLeaves(low, dst)), Hop(high, BetweenLeaves(high, dst)));
  }

  /** So loops remain for every address length and leafset size: 1e00.., its right leafset full of
      1f00.., and 2f00.., which knows only 1e00.., bounce what is sent to 2000... */
  lemma IntendedRangeStillLoops(n: nat, k: nat, netA: NetAddr, netB: NetAddr)
    returns (ss: seq<State>, lower: State, upper: State)
    requires n > 0 && k > 0
    ensures var a, b, d, dst := Top(0x1e, n), Top(0x2f, n), Top(0x1f, n), Top(0x20, n);
            && Run(a, netA, k, Crowd(d, netB, k, b, netB), ss) && lower == ss[k + 1]
            && Run(b, netB, k, [Add(a, netA)], [Init(b, netB, k), upper])
            && Shape(lower) && Shape(upper) && |lower.self.addr| == |upper.self.addr| == n
            && var h, g := Hop(lower, BetweenLeaves(lower, dst)), Hop(upper, BetweenLeaves(upper, dst));
               forall len: nat :: Path(dst, Bounce(h, g, len))
  {
    var a, b, d, dst := Top(0x1e, n), Top(0x2f, n), Top(0x1f, n), Top(0x20, n);
    TopOrder(0x1e, 0x2f, n);
    TopOrder(0x1e, 0x1f, n);
    TopOrder(0x1f, 0x20, n);
    TopOrder(0x1f, 0x2f, n);
    TopOrder(0x20, 0x2f, n);
    assert a[0] != 0 && b[0] != 0;
    ss := RunExists(a, netA, k, Crowd(d, netB, k, b, netB));
    lower := ss[k + 1];
    upper := OneAdd(b, netB, k, Add(a, netA));
    LowerIsCloserButFewer(0x1e, n);
    IntendedBounceIff(a, d, b, netA, netB, netB, k, ss, lower, upper, dst);
  }
}
