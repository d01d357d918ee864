/** The leafset answer against the true ring distance: exactly when it misses the nearest known address. */
module NearestKnown {
  import opened Options
  import opened Address
  import opened RingDistance
  import opened Entries
  import opened Leafsets
  import opened RouterStates
  import opened NextHops
  import opened Optimality
  import opened RunsExist

  function Gap(a: Addr, b: Addr): (o: nat)
    requires |a| == |b|
    ensures o < Ring(|b|)
  {
    NumBound(a);
    NumBound(b);
    Offset(Num(a), Num(b), Ring(|a|))
  }

  function TrueFar(a: Addr, b: Addr): nat
    requires |a| == |b|
  {
    NumBound(a);
    NumBound(b);
    RingDist(Num(a), Num(b), Ring(|a|))
  }

  /** x lies on the upper side of dst, and y one farther below it than x is above: the fold measures
      them alike. */
  ghost predicate Mirrored(dst: Addr, x: Addr, y: Addr)
    requires |x| == |dst| == |y|
  {
    2 * Gap(x, dst) < Ring(|dst|) && Gap(y, dst) == Ring(|dst|) - 1 - Gap(x, dst)
  }

  /** The order in which the leafset search meets addresses: self, those below it from the top down,
      those above it from the bottom up. */
  ghost predicate Sooner(self: Addr, y: Addr, x: Addr) {
    && x != self
    && (y == self || if Num(y) < Num(self) then Num(x) < Num(y) || Num(self) < Num(x) else Num(y) < Num(x))
  }

  ghost predicate NoneNearer(self: Addr, ops: seq<Op>, dst: Addr, p: Addr)
    requires |p| == |dst|
  {
    forall z :: Known(self, ops, z) && |z| == |dst| ==> Far(p, dst) <= Far(z, dst)
  }

  ghost predicate TrulyNearest(self: Addr, ops: seq<Op>, dst: Addr, p: Addr)
    requires |p| == |dst|
  {
    forall z :: Known(self, ops, z) && |z| == |dst| ==> TrueFar(p, dst) <= TrueFar(z, dst)
  }

  /** Nothing known is nearer by the fold than x and y, mirrored addresses of which the farther one,
      y, is met first. */
  ghost predicate MissedTie(self: Addr, ops: seq<Op>, dst: Addr, x: Addr, y: Addr) {
    && |x| == |dst| == |y| && Known(self, ops, x) && Known(self, ops, y)
    && Mirrored(dst, x, y) && NoneNearer(self, ops, dst, x) && Sooner(self, y, x)
  }

  //// On integers

  lemma FoldAgainstRing(p: nat, z: nat, d: nat, m: nat)
    requires p < m && z < m && d < m && m % 2 == 0 && FoldDist(p, d, m) <= FoldDist(z, d, m)
    ensures RingDist(p, d, m) <= RingDist(z, d, m) + 1
    ensures RingDist(p, d, m) <= RingDist(z, d, m)
       <==> !(2 * Offset(z, d, m) < m && Offset(p, d, m) == m - 1 - Offset(z, d, m))
  {
  }

  lemma MirrorsTie(x: nat, y: nat, d: nat, m: nat)
    requires x < m && y < m && d < m && m % 2 == 0
    requires 2 * Offset(x, d, m) < m && Offset(y, d, m) == m - 1 - Offset(x, d, m)
    ensures FoldDist(y, d, m) == FoldDist(x, d, m) == Offset(x, d, m)
    ensures RingDist(x, d, m) < RingDist(y, d, m) && x != y
    ensures forall p: nat | p < m && FoldDist(p, d, m) == FoldDist(x, d, m) :: p == x || p == y
  {
  }

  /** The upper of two nearest mirrored addresses lies between the leaves around the destination. */
  lemma UpperIsInside(x: nat, l: nat, d: nat, r: nat, m: nat)
    requires l <= d <= r < m && x < m && 2 * Offset(x, d, m) < m
    requires FoldDist(x, d, m) <= FoldDist(r, d, m)
    ensures d <= x <= r
  {
  }

  /** So does the lower one, when it is met first. */
  lemma LowerIsInside(s: nat, x: nat, y: nat, l: nat, d: nat, r: nat, m: nat)
    requires l <= d <= r < m && l <= s <= r && x < m && y < m && m % 2 == 0
    requires 2 * Offset(x, d, m) < m && Offset(y, d, m) == m - 1 - Offset(x, d, m)
    requires FoldDist(x, d, m) <= FoldDist(l, d, m) && FoldDist(x, d, m) <= FoldDist(r, d, m)
    requires x != s && (y == s || if y < s then x < y || s < x else y < x)
    ensures (l < s ==> l <= y) && y <= r
  {
  }

  /** Between the leaves, the lower one is met first exactly when self is below the destination or is
      that address. */
  lemma SoonerBetween(s: nat, x: nat, y: nat, l: nat, d: nat, r: nat, m: nat)
    requires l <= d <= r < m && s < m && x < m && y < m && m % 2 == 0
    requires l <= s <= r
    requires 2 * Offset(x, d, m) < m && Offset(y, d, m) == m - 1 - Offset(x, d, m)
    requires FoldDist(x, d, m) <= FoldDist(l, d, m) && FoldDist(x, d, m) <= FoldDist(r, d, m)
    requires FoldDist(x, d, m) <= FoldDist(s, d, m)
    ensures x != s && (y == s || if y < s then x < y || s < x else y < x) <==> s < d || y == s
  {
  }

  //// The order of the search

  function Scanned(s: State): seq<Entry> {
    [s.self] + s.left + s.right
  }

  lemma LeafOrder(es: seq<Entry>, i: nat, j: nat, right: bool)
    requires Ordered(es, right) && i <= j < SetPrefix(es)
    ensures Key(es[i], right) <= Key(es[j], right)
  {
    assert Keys(es, right)[i] == Key(es[i], right) && Keys(es, right)[j] == Key(es[j], right);
  }

  lemma SetPosition(s: State, i: nat)
    requires Inv(s) && i < |Scanned(s)| && Scanned(s)[i].isSet
    ensures var n, e := |s.left|, Scanned(s)[i];
            if i == 0 then e == s.self
            else if i <= n then i - 1 < SetPrefix(s.left) && e == s.left[i - 1] && Num(e.addr) < Num(s.self.addr)
            else i - 1 - n < SetPrefix(s.right) && e == s.right[i - 1 - n] && Num(s.self.addr) < Num(e.addr)
  {
  }

  /** What is met sooner stands at an earlier position. */
  lemma SoonerIsEarlier(s: State, i: nat, j: nat)
    requires Inv(s) && i < |Scanned(s)| && j < |Scanned(s)| && Scanned(s)[i].isSet && Scanned(s)[j].isSet
    requires Sooner(s.self.addr, Scanned(s)[j].addr, Scanned(s)[i].addr)
    ensures j < i
  {
    var n := |s.left|;
    SetPosition(s, i);
    SetPosition(s, j);
    if 0 < i <= j <= n {
      LeafOrder(s.left, i - 1, j - 1, false);
    } else if n < i <= j {
      LeafOrder(s.right, i - 1 - n, j - 1 - n, true);
    }
  }

  ghost predicate Holds(s: State, x: Addr) {
    x == s.self.addr || IsLeaf(s.left, x) || IsLeaf(s.right, x)
  }

  lemma HeldPosition(s: State, x: Addr) returns (j: nat)
    requires Shape(s) && Holds(s, x)
    ensures j < |Scanned(s)| && Scanned(s)[j].isSet && Scanned(s)[j].addr == x
  {
    if x == s.self.addr {
      j := 0;
    } else {
      var e :| (e in s.left || e in s.right) && e.isSet && e.addr == x;
      assert e in Scanned(s);
      j :| 0 <= j < |Scanned(s)| && Scanned(s)[j] == e;
    }
  }

  /** The answer is strictly closer than whatever was met before it. */
  lemma PickBeatsSooner(s: State, dst: Addr, y: Addr)
    requires Inv(s) && |dst| == |s.self.addr| == |y| && Holds(s, y)
    requires Sooner(s.self.addr, y, LeafsetPick(s, dst).addr)
    ensures DistNum(LeafsetPick(s, dst).addr, dst) < DistNum(y, dst)
  {
    var cs := Scanned(s);
    ClosestOfClosests(s, dst);
    LeafsetPickIsNearest(s, dst, s.self);
    ClosestIsFirstMinimiser(dst, cs, None, 0, s.self);
    var i :| FirstMinimiser(dst, cs, None, 0, i) && LeafsetPick(s, dst) == cs[i];
    var j := HeldPosition(s, y);
    SoonerIsEarlier(s, i, j);
    assert Eligible(cs[j], None, 0);
  }

  //// The leafset answer and the true distance

  /** The state after adds, for a borrow-safe destination between the farthest leaves or with neither
      side full: what the optimality results cover. */
  ghost predicate Covered(self: Addr, net: NetAddr, k: nat, ops: seq<Op>, ss: seq<State>, dst: Addr) {
    && Run(self, net, k, ops, ss) && AddsOnly(ops) && |dst| == |self| && BorrowSafe(dst)
    && Inv(ss[|ops|]) && ss[|ops|].self.addr == self
    && (BetweenLeaves(ss[|ops|], dst) || BothShort(ss[|ops|]))
  }

  lemma EvenRing(n: nat)
    requires n > 0
    ensures Ring(n) % 2 == 0
  {
    RingSplits(n);
    Parity(0, Ring(n - 1));
  }

  lemma EndOfSide(self: Addr, net: NetAddr, k: nat, ops: seq<Op>, ss: seq<State>, right: bool)
    requires Run(self, net, k, ops, ss) && AddsOnly(ops) && Inv(ss[|ops|]) && ss[|ops|].self.addr == self
    ensures var es := if right then ss[|ops|].right else ss[|ops|].left;
            var end := Farthest(ss[|ops|].self, es).addr;
            && |end| == |self| && Known(self, ops, end)
            && (end == self || (IsLeaf(es, end) && if right then Num(self) < Num(end) else Num(end) < Num(self)))
  {
    var s := ss[|ops|];
    var es := if right then s.right else s.left;
    if SetPrefix(es) > 0 {
      LeavesAreKnown(self, net, k, ops, ss, es[SetPrefix(es) - 1]);
    }
  }

  lemma Ends(self: Addr, net: NetAddr, k: nat, ops: seq<Op>, ss: seq<State>, dst: Addr) returns (l: Addr, r: Addr)
    requires Covered(self, net, k, ops, ss, dst) && BetweenLeaves(ss[|ops|], dst)
    ensures |l| == |r| == |dst| && Known(self, ops, l) && Known(self, ops, r)
    ensures Num(l) <= Num(dst) <= Num(r) && Num(l) <= Num(self) <= Num(r)
    ensures var s := ss[|ops|];
            && l == Farthest(s.self, s.left).addr && r == Farthest(s.self, s.right).addr
            && (l != self ==> IsLeaf(s.left, l) && Num(l) < Num(self))
            && (r != self ==> IsLeaf(s.right, r) && Num(self) < Num(r))
  {
    var s := ss[|ops|];
    EndOfSide(self, net, k, ops, ss, false);
    EndOfSide(self, net, k, ops, ss, true);
    l, r := Farthest(s.self, s.left).addr, Farthest(s.self, s.right).addr;
  }

  /** A full side's farthest leaf is its end. */
  lemma PastEnd(s: State, x: Addr, right: bool)
    requires Inv(s) && |x| == |s.self.addr| && PastFull(if right then s.right else s.left, x, right)
    ensures var end := Farthest(s.self, if right then s.right else s.left).addr;
            && end != s.self.addr && |end| == |x|
            && IsLeaf(if right then s.right else s.left, end)
            && if right then Num(end) <= Num(x) else Num(x) <= Num(end)
  {
  }

  ghost predicate NotOutside(s: State, z: Addr) {
    var l, r := Farthest(s.self, s.left).addr, Farthest(s.self, s.right).addr;
    (l != s.self.addr ==> Num(l) <= Num(z)) && (r != s.self.addr ==> Num(z) <= Num(r))
  }

  lemma InsideIsHeld(self: Addr, net: NetAddr, k: nat, ops: seq<Op>, ss: seq<State>, dst: Addr, z: Addr)
    requires Covered(self, net, k, ops, ss, dst) && Known(self, ops, z) && |z| == |dst|
    requires BetweenLeaves(ss[|ops|], dst) ==> NotOutside(ss[|ops|], z)
    ensures Holds(ss[|ops|], z)
  {
    var s := ss[|ops|];
    if z != self {
      HeldOrBeyond(self, net, k, ops, ss, z);
      if PastFull(s.left, z, false) {
        PastEnd(s, z, false);
        NumInjective(Farthest(s.self, s.left).addr, z);
      } else if PastFull(s.right, z, true) {
        PastEnd(s, z, true);
        NumInjective(Farthest(s.self, s.right).addr, z);
      }
    }
  }

  lemma UpperIsHeld(self: Addr, net: NetAddr, k: nat, ops: seq<Op>, ss: seq<State>, dst: Addr, x: Addr, y: Addr)
    requires Covered(self, net, k, ops, ss, dst)
    requires |x| == |dst| == |y| && Known(self, ops, x) && Mirrored(dst, x, y) && NoneNearer(self, ops, dst, x)
    ensures Holds(ss[|ops|], x)
  {
    if BetweenLeaves(ss[|ops|], dst) {
      var l, r := Ends(self, net, k, ops, ss, dst);
      NumBound(r);
      UpperIsInside(Num(x), Num(l), Num(dst), Num(r), Ring(|dst|));
    }
    InsideIsHeld(self, net, k, ops, ss, dst, x);
  }

  lemma LowerIsHeld(self: Addr, net: NetAddr, k: nat, ops: seq<Op>, ss: seq<State>, dst: Addr, x: Addr, y: Addr)
    requires Covered(self, net, k, ops, ss, dst) && MissedTie(self, ops, dst, x, y)
    ensures Holds(ss[|ops|], y)
  {
    if BetweenLeaves(ss[|ops|], dst) {
      var l, r := Ends(self, net, k, ops, ss, dst);
      NumBound(r);
      EvenRing(|dst|);
      NumInjective(x, self);
      LowerIsInside(Num(self), Num(x), Num(y), Num(l), Num(dst), Num(r), Ring(|dst|));
    }
    InsideIsHeld(self, net, k, ops, ss, dst, y);
  }

  lemma PickIsKnown(self: Addr, net: NetAddr, k: nat, ops: seq<Op>, ss: seq<State>, dst: Addr)
    requires Covered(self, net, k, ops, ss, dst)
    ensures var p := LeafsetPick(ss[|ops|], dst).addr;
            |p| == |dst| && Known(self, ops, p) && NoneNearer(self, ops, dst, p)
  {
    var s := ss[|ops|];
    DisplacesFirst(dst, LeafsetBests(s, dst), s.self);
    ClosestComesFrom(dst, s.left, None, 0, s.self);
    ClosestComesFrom(dst, s.right, None, 0, s.self);
    var p := LeafsetPick(s, dst);
    if p != s.self {
      LeavesAreKnown(self, net, k, ops, ss, p);
    }
    forall z | Known(self, ops, z) && |z| == |dst| ensures Far(p.addr, dst) <= Far(z, dst) {
      LeafsetPickIsOptimal(self, net, k, ops, ss, dst, z);
    }
  }

  lemma MissMeansTie(self: Addr, net: NetAddr, k: nat, ops: seq<Op>, ss: seq<State>, dst: Addr, x: Addr)
    requires Covered(self, net, k, ops, ss, dst) && Known(self, ops, x) && |x| == |dst|
    ensures var p := LeafsetPick(ss[|ops|], dst).addr;
            && TrueFar(p, dst) <= TrueFar(x, dst) + 1
            && (TrueFar(x, dst) < TrueFar(p, dst) ==> MissedTie(self, ops, dst, x, p))
  {
    var s, m := ss[|ops|], Ring(|dst|);
    var p := LeafsetPick(s, dst).addr;
    PickIsKnown(self, net, k, ops, ss, dst);
    NumBound(p);
    NumBound(x);
    NumBound(dst);
    EvenRing(|dst|);
    FoldAgainstRing(Num(p), Num(x), Num(dst), m);
    if TrueFar(x, dst) < TrueFar(p, dst) {
      assert Mirrored(dst, x, p);
      MirrorsTie(Num(x), Num(p), Num(dst), m);
      assert Far(x, dst) == Far(p, dst);
      UpperIsHeld(self, net, k, ops, ss, dst, x, p);
      if !Sooner(self, p, x) {
        NumInjective(p, x);
        NumInjective(p, self);
        NumInjective(x, self);
        PickBeatsSooner(s, dst, x);
        FarIsComputed(p, dst);
        FarIsComputed(x, dst);
      }
    }
  }

  lemma TieIsMissed(self: Addr, net: NetAddr, k: nat, ops: seq<Op>, ss: seq<State>, dst: Addr, x: Addr, y: Addr)
    requires Covered(self, net, k, ops, ss, dst) && MissedTie(self, ops, dst, x, y)
    ensures TrueFar(x, dst) < TrueFar(LeafsetPick(ss[|ops|], dst).addr, dst)
  {
    var s, m := ss[|ops|], Ring(|dst|);
    var p := LeafsetPick(s, dst).addr;
    PickIsKnown(self, net, k, ops, ss, dst);
    NumBound(p);
    NumBound(x);
    NumBound(y);
    NumBound(dst);
    EvenRing(|dst|);
    MirrorsTie(Num(x), Num(y), Num(dst), m);
    assert FoldDist(Num(p), Num(dst), m) == FoldDist(Num(x), Num(dst), m);
    NumInjective(p, x);
    NumInjective(p, y);
    if p == x {
      LowerIsHeld(self, net, k, ops, ss, dst, x, y);
      PickBeatsSooner(s, dst, y);
      FarIsComputed(p, dst);
      FarIsComputed(y, dst);
    }
  }

  lemma MissesAreTies(self: Addr, net: NetAddr, k: nat, ops: seq<Op>, ss: seq<State>, dst: Addr)
    requires Covered(self, net, k, ops, ss, dst)
    ensures var p := LeafsetPick(ss[|ops|], dst).addr;
            && (forall x :: Known(self, ops, x) && |x| == |dst| ==> TrueFar(p, dst) <= TrueFar(x, dst) + 1)
            && (TrulyNearest(self, ops, dst, p) || exists x, y :: MissedTie(self, ops, dst, x, y))
  {
    var p := LeafsetPick(ss[|ops|], dst).addr;
    forall x | Known(self, ops, x) && |x| == |dst|
      ensures TrueFar(p, dst) <= TrueFar(x, dst) + 1
    {
      MissMeansTie(self, net, k, ops, ss, dst, x);
    }
    if !TrulyNearest(self, ops, dst, p) {
      var x :| Known(self, ops, x) && |x| == |dst| && TrueFar(x, dst) < TrueFar(p, dst);
      MissMeansTie(self, net, k, ops, ss, dst, x);
    }
  }

  lemma TiesAreMissed(self: Addr, net: NetAddr, k: nat, ops: seq<Op>, ss: seq<State>, dst: Addr)
    requires Covered(self, net, k, ops, ss, dst) && exists x, y :: MissedTie(self, ops, dst, x, y)
    ensures !TrulyNearest(self, ops, dst, LeafsetPick(ss[|ops|], dst).addr)
  {
    var x, y :| MissedTie(self, ops, dst, x, y);
    TieIsMissed(self, net, k, ops, ss, dst, x, y);
    assert Known(self, ops, x) && |x| == |dst|;
  }

  lemma LeafsetBranchAddress(s: State, dst: Addr)
    requires Shape(s) && |dst| == |s.self.addr|
    ensures NextHopWith(s, dst, true).addr == LeafsetPick(s, dst).addr
  {
  }

  /** Whenever the leafset branch is taken in a covered state, the next hop (self when unset) is within
      one of the nearest known address, and misses it exactly when two known addresses are mirrored at
      the least folded distance and the farther one is met first. */
  lemma HopIsTrulyNearestIff(self: Addr, net: NetAddr, k: nat, ops: seq<Op>, ss: seq<State>, dst: Addr)
    requires Covered(self, net, k, ops, ss, dst)
    ensures var e := NextHopWith(ss[|ops|], dst, true).addr;
            && (forall x :: Known(self, ops, x) && |x| == |dst| ==> TrueFar(e, dst) <= TrueFar(x, dst) + 1)
            && (TrulyNearest(self, ops, dst, e) <==> !exists x, y :: MissedTie(self, ops, dst, x, y))
  {
    LeafsetBranchAddress(ss[|ops|], dst);
    MissesAreTies(self, net, k, ops, ss, dst);
    if exists x, y :: MissedTie(self, ops, dst, x, y) {
      TiesAreMissed(self, net, k, ops, ss, dst);
    }
  }

  /** Between the farthest leaves the condition is plain: two known addresses mirrored at the least
      folded distance, and self below the destination or itself the farther of the two. */
  lemma MissedTieIff(self: Addr, net: NetAddr, k: nat, ops: seq<Op>, ss: seq<State>, dst: Addr, x: Addr, y: Addr)
    requires Covered(self, net, k, ops, ss, dst) && BetweenLeaves(ss[|ops|], dst)
    ensures MissedTie(self, ops, dst, x, y)
       <==> && |x| == |dst| == |y| && Known(self, ops, x) && Known(self, ops, y)
            && Mirrored(dst, x, y) && NoneNearer(self, ops, dst, x)
            && (Num(self) < Num(dst) || y == self)
  {
    if |x| == |dst| == |y| && Mirrored(dst, x, y) && NoneNearer(self, ops, dst, x) {
      var l, r := Ends(self, net, k, ops, ss, dst);
      NumBound(x);
      NumBound(y);
      NumBound(r);
      NumBound(self);
      EvenRing(|dst|);
      NumInjective(x, self);
      NumInjective(y, self);
      assert Known(self, ops, self);
      SoonerBetween(Num(self), Num(x), Num(y), Num(l), Num(dst), Num(r), Ring(|dst|));
    }
  }

  //// The predecessor wins over the destination itself

  lemma NextBelow(y: nat, d: nat, m: nat)
    requires y + 1 == d < m && m % 2 == 0
    ensures Offset(d, d, m) == 0 && Offset(y, d, m) == m - 1
    ensures FoldDist(d, d, m) == FoldDist(y, d, m) == 0 && RingDist(d, d, m) == 0 && RingDist(y, d, m) == 1
  {
  }

  /** With the intended bounds, a router below the destination that knows both the destination and its
      predecessor picks the predecessor; when the router is the predecessor, it keeps the packet. */
  lemma PredecessorIsPreferred(self: Addr, net: NetAddr, k: nat, ops: seq<Op>, ss: seq<State>, dst: Addr, y: Addr)
    requires Covered(self, net, k, ops, ss, dst) && BetweenLeaves(ss[|ops|], dst) && Num(self) < Num(dst)
    requires Known(self, ops, dst) && Known(self, ops, y) && |y| == |dst| && Num(y) + 1 == Num(dst)
    ensures var e := NextHopWith(ss[|ops|], dst, true);
            && e.addr == y && (e.isSet <==> y != self)
            && TrueFar(dst, dst) == 0 && TrueFar(e.addr, dst) == 1
  {
    var p := LeafsetPick(ss[|ops|], dst).addr;
    NumBound(dst);
    NumBound(p);
    EvenRing(|dst|);
    NextBelow(Num(y), Num(dst), Ring(|dst|));
    MirrorsTie(Num(dst), Num(y), Num(dst), Ring(|dst|));
    assert NoneNearer(self, ops, dst, dst);
    MissedTieIff(self, net, k, ops, ss, dst, dst, y);
    TieIsMissed(self, net, k, ops, ss, dst, dst, y);
    PickIsKnown(self, net, k, ops, ss, dst);
    assert FoldDist(Num(p), Num(dst), Ring(|dst|)) == 0;
    NumInjective(p, y);
    LeafsetPickIsNearest(ss[|ops|], dst, ss[|ops|].self);
    CmpIsNumericOrder(p, self);
  }

  /** So, with the intended bounds, the predecessor of a borrow-safe destination, with that destination
      as its only leaf, does not pass a packet on to it. */
  lemma PredecessorKeepsPacket(self: Addr, dst: Addr, net: NetAddr, other: NetAddr, k: nat) returns (s: State)
    requires self != [] && k > 0 && |self| == |dst| && BorrowSafe(dst)
    requires 0 < Num(self) && Num(self) + 1 == Num(dst)
    ensures Run(self, net, k, [Add(dst, other)], [Init(self, net, k), s]) && Shape(s) && s.self.addr == self
    ensures IsLeaf(s.right, dst) && BetweenLeaves(s, dst)
    ensures !NextHopWith(s, dst, BetweenLeaves(s, dst)).isSet
  {
    var op := Add(dst, other);
    ZeroIff(self);
    CmpIsNumericOrder(dst, self);
    s := OneAdd(self, net, k, op);
    assert Keys(s.right, true)[0] == Key(s.right[0], true);
    KeyNamesLeaf(s.right, dst, true);
    assert [op][0].addr == dst;
    PredecessorIsPreferred(self, net, k, [op], [Init(self, net, k), s], dst, self);
  }

  //// The range test as it is written

  /** Where neither side is full, the written test lets only self be met before the nearer of two. */
  lemma OnlySelfIsSooner(s: nat, x: nat, y: nat, d: nat, m: nat)
    requires s < m && x < m && y < m && d < m && m % 2 == 0
    requires d == 0 || (d <= s && x <= s && y <= s)
    requires 2 * Offset(x, d, m) < m && Offset(y, d, m) == m - 1 - Offset(x, d, m)
    requires FoldDist(x, d, m) <= FoldDist(s, d, m)
    requires x != s && (y == s || if y < s then x < y || s < x else y < x)
    ensures y == s
  {
  }

  lemma NoneAbove(self: Addr, net: NetAddr, k: nat, ops: seq<Op>, ss: seq<State>, dst: Addr, z: Addr)
    requires Covered(self, net, k, ops, ss, dst) && Known(self, ops, z)
    requires BothShort(ss[|ops|]) && SetPrefix(ss[|ops|].right) == 0
    ensures |z| == |dst| && Num(z) <= Num(self)
  {
    if z != self {
      HeldOrBeyond(self, net, k, ops, ss, z);
    }
  }

  lemma WrittenMissIsSelf(self: Addr, net: NetAddr, k: nat, ops: seq<Op>, ss: seq<State>, dst: Addr, beyond: Beyond,
                          x: Addr, y: Addr)
    requires Covered(self, net, k, ops, ss, dst) && MissedTie(self, ops, dst, x, y)
    requires BothShort(ss[|ops|]) && Fits(ss[|ops|], dst, beyond) && OnRange(ss[|ops|], dst, beyond)
    ensures y == self
  {
    RangeTestIff(self, net, k, ops, ss, dst, beyond);
    if SetPrefix(ss[|ops|].right) == 0 {
      NoneAbove(self, net, k, ops, ss, dst, x);
      NoneAbove(self, net, k, ops, ss, dst, y);
    }
    ZeroIff(dst);
    NumBound(x);
    NumBound(y);
    NumBound(self);
    NumBound(dst);
    EvenRing(|dst|);
    NumInjective(x, self);
    NumInjective(y, self);
    assert Known(self, ops, self);
    OnlySelfIsSooner(Num(self), Num(x), Num(y), Num(dst), Ring(|dst|));
  }

  /** As written, whenever the test passes in a covered state: the same bound and the same condition. With
      neither side full, the nearest known address is missed only when self is the farther of the two. */
  lemma WrittenHopIsTrulyNearestIff(self: Addr, net: NetAddr, k: nat, ops: seq<Op>, ss: seq<State>, dst: Addr,
                                    beyond: Beyond)
    requires Covered(self, net, k, ops, ss, dst)
    requires Fits(ss[|ops|], dst, beyond) && OnRange(ss[|ops|], dst, beyond)
    ensures var e := NextHop(ss[|ops|], dst, beyond).addr;
            && (forall x :: Known(self, ops, x) && |x| == |dst| ==> TrueFar(e, dst) <= TrueFar(x, dst) + 1)
            && (TrulyNearest(self, ops, dst, e) <==> !exists x, y :: MissedTie(self, ops, dst, x, y))
            && (BothShort(ss[|ops|]) ==>
                  (TrulyNearest(self, ops, dst, e) <==> !exists x :: MissedTie(self, ops, dst, x, self)))
  {
    HopIsTrulyNearestIff(self, net, k, ops, ss, dst);
    if BothShort(ss[|ops|]) {
      if x, y :| MissedTie(self, ops, dst, x, y) {
        WrittenMissIsSelf(self, net, k, ops, ss, dst, beyond, x, y);
      }
    }
  }

  lemma {:induction false} LastAtExists(self: Addr, ops: seq<Op>, l: nat, c: nat, i: nat)
    requires AllForeign(self, ops) && i < |ops| && Indexes(self, ops[i], l, c)
    ensures LastAt(self, ops, l, c).Some?
  {
    var m := |ops| - 1;
    if i < m {
      assert ops[..m][i] == ops[i];
      LastAtExists(self, ops[..m], l, c, i);
    }
  }

  lemma {:induction false} LastAtIsAdd(self: Addr, ops: seq<Op>, l: nat, c: nat)
    requires AllForeign(self, ops) && AddsOnly(ops) && LastAt(self, ops, l, c).Some?
    ensures LastAt(self, ops, l, c).value.Add?
  {
    if !Indexes(self, ops[|ops| - 1], l, c) {
      LastAtIsAdd(self, ops[..|ops| - 1], l, c);
    }
  }

  lemma SlotWasAdded(self: Addr, ops: seq<Op>, dst: Addr)
    requires AllForeign(self, ops) && AddsOnly(ops) && Known(self, ops, dst) && dst != self && |dst| == |self|
    ensures Level(self, dst) < 2 * |self| && Column(self, dst) < COLUMNS
    ensures var op := LastAt(self, ops, Level(self, dst), Column(self, dst)); op.Some? && op.value.Add?
  {
    var i :| 0 <= i < |ops| && ops[i].addr == dst;
    ForeignIndexInBounds(self, ops[i]);
    LastAtExists(self, ops, Level(self, dst), Column(self, dst), i);
    LastAtIsAdd(self, ops, Level(self, dst), Column(self, dst));
  }

  lemma NotOnRangeBelow(self: Addr, net: NetAddr, k: nat, ops: seq<Op>, ss: seq<State>, dst: Addr, beyond: Beyond)
    requires Run(self, net, k, ops, ss) && AddsOnly(ops) && Fits(ss[|ops|], dst, beyond) && ss[|ops|].self.addr == self
    requires BothShort(ss[|ops|]) && Known(self, ops, dst) && Num(self) < Num(dst)
    ensures !OnRange(ss[|ops|], dst, beyond)
  {
    RunKeepsInv(self, net, k, ops, ss);
    HeldOrBeyond(self, net, k, ops, ss, dst);
    RangeTestIff(self, net, k, ops, ss, dst, beyond);
    ZeroIff(dst);
  }

  /** As written, a router below a destination it knows, neither of its sides full, never consults its
      leafsets for it: it forwards to what the last add to the destination's slot left there, which
      shares more nibbles. */
  lemma KnownAboveIsForwarded(self: Addr, net: NetAddr, k: nat, ops: seq<Op>, ss: seq<State>, dst: Addr, beyond: Beyond)
    requires Run(self, net, k, ops, ss) && AddsOnly(ops) && Fits(ss[|ops|], dst, beyond) && ss[|ops|].self.addr == self
    requires BothShort(ss[|ops|]) && Known(self, ops, dst) && Num(self) < Num(dst)
    ensures !OnRange(ss[|ops|], dst, beyond)
    ensures var op := LastAt(self, ops, Level(self, dst), Column(self, dst));
            && op.Some? && op.value.Add? && NextHop(ss[|ops|], dst, beyond) == Written(op.value)
            && Level(op.value.addr, dst) > Level(self, dst)
  {
    NotOnRangeBelow(self, net, k, ops, ss, dst, beyond);
    SlotWasAdded(self, ops, dst);
    TableIsHistory(self, net, k, ops, ss, Level(self, dst), Column(self, dst));
    RunKeepsInv(self, net, k, ops, ss);
    TableHop(ss[|ops|], dst, false);
  }

  /** So, as written, the predecessor of `PredecessorKeepsPacket` does pass the packet on. */
  lemma PredecessorForwardsAsWritten(self: Addr, dst: Addr, net: NetAddr, other: NetAddr, k: nat, s: State,
                                     beyond: Beyond)
    requires k >= 2 && Run(self, net, k, [Add(dst, other)], [Init(self, net, k), s]) && Num(self) + 1 == Num(dst)
    requires |dst| == |beyond.left| == |beyond.right|
    ensures Fits(s, dst, beyond) && !OnRange(s, dst, beyond)
    ensures NextHop(s, dst, beyond) == Entry(true, dst, other)
  {
    var op := Add(dst, other);
    var ss := [Init(self, net, k), s];
    assert Foreign(self, [op][0]) && ss[|[op]|] == s;
    AfterOneAdd(self, net, k, op, s);
    assert |Keys(s.left, false)| + |Keys(s.right, true)| == 1;
    KnownAboveIsForwarded(self, net, k, [op], ss, dst, beyond);
  }
}
