/** When the leafset answer is the best one in the whole history of the router. */
module Optimality {
  import opened Address
  import opened RingDistance
  import opened Entries
  import opened Sorting
  import opened Leafsets
  import opened RouterStates
  import opened NextHops

  /** self and every address ever added, still held or not. */
  ghost predicate Known(self: Addr, ops: seq<Op>, x: Addr) {
    x == self || exists i :: 0 <= i < |ops| && ops[i].addr == x
  }

  /** Folded distance of two addresses on their ring. */
  function Far(a: Addr, b: Addr): nat
    requires |a| == |b|
  {
    NumBound(a);
    NumBound(b);
    FoldDist(Num(a), Num(b), Ring(|a|))
  }

  lemma FarIsComputed(a: Addr, dst: Addr)
    requires |a| == |dst| > 0 && BorrowSafe(dst)
    ensures DistNum(a, dst) == Far(a, dst)
  {
    ExactFromEverywhereIff(dst);
    DistExactIff(a, dst);
  }

  /** The wrap-around argument: between l and r nothing outside them is closer than both. */
  lemma OutsideIsFarther(l: nat, d: nat, r: nat, x: nat, m: nat)
    requires l <= d <= r < m && x < m && (x <= l || r <= x) && m % 2 == 0
    ensures FoldDist(l, d, m) <= FoldDist(x, d, m) || FoldDist(r, d, m) <= FoldDist(x, d, m)
    ensures RingDist(l, d, m) <= RingDist(x, d, m) || RingDist(r, d, m) <= RingDist(x, d, m)
  {
  }

  lemma {:induction false} AddedKeyListed(self: Addr, ops: seq<Op>, i: nat)
    requires AllForeign(self, ops) && i < |ops|
    ensures var right := !GoesLeft(self, ops[i].addr);
            KeyOfAddr(ops[i].addr, right) in AddedKeys(self, ops, right)
  {
    if i < |ops| - 1 {
      AddedKeyListed(self, ops[..|ops| - 1], i);
    }
  }

  lemma KeyNamesLeaf(es: seq<Entry>, x: Addr, right: bool)
    requires AllOfLength(es, |x|) && KeyOfAddr(x, right) in Keys(es, right)
    ensures exists e :: e in es && e.isSet && e.addr == x
  {
    var i :| 0 <= i < SetPrefix(es) && Keys(es, right)[i] == KeyOfAddr(x, right);
    NumInjective(es[i].addr, x);
    assert es[i] in es;
  }

  /** The farthest leaf on a side, self when the side is empty. */
  function Farthest(self: Entry, es: seq<Entry>): Entry {
    var c := SetPrefix(es);
    if c == 0 then self else es[c - 1]
  }

  ghost predicate IsLeaf(es: seq<Entry>, x: Addr) {
    exists e :: e in es && e.isSet && e.addr == x
  }

  /** The side is full and x lies at or past its farthest leaf. */
  ghost predicate PastFull(es: seq<Entry>, x: Addr, right: bool) {
    && es != [] && SetPrefix(es) == |es|
    && KeyOfAddr(es[|es| - 1].addr, right) <= KeyOfAddr(x, right)
  }

  lemma LeafOrPastFull(es: seq<Entry>, added: seq<int>, x: Addr, right: bool)
    requires es != [] && AllOfLength(es, |x|) && KeyOfAddr(x, right) in added
    requires Keys(es, right) == Take(Sort(added), |es|)
    ensures IsLeaf(es, x) || PastFull(es, x, right)
  {
    var keys := Keys(es, right);
    LeftOut(added, |es|, KeyOfAddr(x, right));
    if KeyOfAddr(x, right) in keys {
      KeyNamesLeaf(es, x, right);
    } else {
      assert keys[|es| - 1] in keys;
      assert keys[|es| - 1] == Key(es[|es| - 1], right);
    }
  }

  /** Every known address is held on its side, or its side is full and it lies past the farthest leaf. */
  lemma HeldOrBeyond(self: Addr, net: NetAddr, k: nat, ops: seq<Op>, ss: seq<State>, x: Addr)
    requires Run(self, net, k, ops, ss) && AddsOnly(ops) && Known(self, ops, x) && x != self
    ensures var s := ss[|ops|];
            IsLeaf(s.left, x) || IsLeaf(s.right, x) || PastFull(s.left, x, false) || PastFull(s.right, x, true)
  {
    var i :| 0 <= i < |ops| && ops[i].addr == x;
    var s, right := ss[|ops|], !GoesLeft(self, x);
    RunKeepsInv(self, net, k, ops, ss);
    LeafsetsKeepNearest(self, net, k, ops, ss);
    AddedKeyListed(self, ops, i);
    LeafOrPastFull(if right then s.right else s.left, AddedKeys(self, ops, right), x, right);
  }

  lemma {:induction false} AddedKeyFrom(self: Addr, ops: seq<Op>, right: bool, x: int)
    requires AllForeign(self, ops) && x in AddedKeys(self, ops, right)
    ensures exists i :: 0 <= i < |ops| && KeyOfAddr(ops[i].addr, right) == x
  {
    var m := |ops| - 1;
    if x in AddedKeys(self, ops[..m], right) {
      AddedKeyFrom(self, ops[..m], right, x);
      var i :| 0 <= i < m && KeyOfAddr(ops[..m][i].addr, right) == x;
      assert KeyOfAddr(ops[i].addr, right) == x;
    } else {
      assert KeyOfAddr(ops[m].addr, right) == x;
    }
  }

  lemma LeafKeyAdded(es: seq<Entry>, added: seq<int>, k: nat, e: Entry, right: bool)
    requires Ordered(es, right) && e in es && e.isSet && Keys(es, right) == Take(Sort(added), k)
    ensures Key(e, right) in added
  {
    SetLeavesAreListed(es, right);
    var i :| 0 <= i < SetPrefix(es) && es[i] == e;
    assert Keys(es, right)[i] == Key(e, right);
    assert Sort(added)[i] in multiset(Sort(added));
  }

  lemma AddressFrom(self: Addr, ops: seq<Op>, right: bool, x: Addr)
    requires AllForeign(self, ops) && |x| == |self| && KeyOfAddr(x, right) in AddedKeys(self, ops, right)
    ensures Known(self, ops, x) && x != self
  {
    AddedKeyFrom(self, ops, right, KeyOfAddr(x, right));
    var i :| 0 <= i < |ops| && KeyOfAddr(ops[i].addr, right) == KeyOfAddr(x, right);
    NumInjective(ops[i].addr, x);
  }

  /** A leaf after adds was added at some time. */
  lemma LeavesAreKnown(self: Addr, net: NetAddr, k: nat, ops: seq<Op>, ss: seq<State>, e: Entry)
    requires Run(self, net, k, ops, ss) && AddsOnly(ops) && e.isSet
    requires e in ss[|ops|].left || e in ss[|ops|].right
    ensures Known(self, ops, e.addr) && |e.addr| == |self| && e.addr != self
  {
    RunKeepsInv(self, net, k, ops, ss);
    LeafsetsKeepNearest(self, net, k, ops, ss);
    if e in ss[|ops|].left {
      LeafKeyAdded(ss[|ops|].left, AddedKeys(self, ops, false), k, e, false);
      AddressFrom(self, ops, false, e.addr);
    } else {
      LeafKeyAdded(ss[|ops|].right, AddedKeys(self, ops, true), k, e, true);
      AddressFrom(self, ops, true, e.addr);
    }
  }

  ghost predicate BothShort(s: State) {
    SetPrefix(s.left) < |s.left| && SetPrefix(s.right) < |s.right|
  }

  lemma PickBeats(s: State, dst: Addr, e: Entry)
    requires Inv(s) && |dst| == |s.self.addr| && BorrowSafe(dst)
    requires e == s.self || (e.isSet && (e in s.left || e in s.right))
    ensures |e.addr| == |dst| && Far(LeafsetPick(s, dst).addr, dst) <= Far(e.addr, dst)
  {
    LeafsetPickIsNearest(s, dst, e);
    FarIsComputed(e.addr, dst);
    FarIsComputed(LeafsetPick(s, dst).addr, dst);
  }

  lemma PickBeatsOutside(s: State, dst: Addr, x: Addr)
    requires Inv(s) && |x| == |dst| == |s.self.addr| && BorrowSafe(dst) && BetweenLeaves(s, dst)
    requires PastFull(s.left, x, false) || PastFull(s.right, x, true)
    ensures Far(LeafsetPick(s, dst).addr, dst) <= Far(x, dst)
  {
    var l, r := Farthest(s.self, s.left), Farthest(s.self, s.right);
    OutsideBounds(s, dst, x);
    OutsideAddressIsFarther(l.addr, dst, r.addr, x);
    PickBeats(s, dst, l);
    PickBeats(s, dst, r);
  }

  lemma OutsideBounds(s: State, dst: Addr, x: Addr)
    requires Inv(s) && |x| == |dst| == |s.self.addr| && BetweenLeaves(s, dst)
    requires PastFull(s.left, x, false) || PastFull(s.right, x, true)
    ensures var l, r := Farthest(s.self, s.left), Farthest(s.self, s.right);
            && |l.addr| == |r.addr| == |dst|
            && (l == s.self || (l.isSet && l in s.left)) && (r == s.self || (r.isSet && r in s.right))
            && Num(l.addr) <= Num(dst) <= Num(r.addr)
            && (Num(x) <= Num(l.addr) || Num(r.addr) <= Num(x))
  {
  }

  lemma OutsideAddressIsFarther(l: Addr, dst: Addr, r: Addr, x: Addr)
    requires |l| == |r| == |x| == |dst| > 0
    requires Num(l) <= Num(dst) <= Num(r) && (Num(x) <= Num(l) || Num(r) <= Num(x))
    ensures Far(l, dst) <= Far(x, dst) || Far(r, dst) <= Far(x, dst)
  {
    NumBound(r);
    NumBound(x);
    RingSplits(|dst|);
    Parity(0, Ring(|dst| - 1));
    OutsideIsFarther(Num(l), Num(dst), Num(r), Num(x), Ring(|dst|));
  }

  /** After any adds, for a destination between the farthest leaves (or whenever neither side is
      full), no known address, evicted ones included, is closer than the leafset answer. */
  lemma LeafsetPickIsOptimal(self: Addr, net: NetAddr, k: nat, ops: seq<Op>, ss: seq<State>, dst: Addr, x: Addr)
    requires Run(self, net, k, ops, ss) && AddsOnly(ops) && Known(self, ops, x)
    requires |dst| == |self| && BorrowSafe(dst)
    requires Inv(ss[|ops|]) && ss[|ops|].self.addr == self
    requires BetweenLeaves(ss[|ops|], dst) || BothShort(ss[|ops|])
    ensures |x| == |dst| && Far(LeafsetPick(ss[|ops|], dst).addr, dst) <= Far(x, dst)
  {
    var s := ss[|ops|];
    if x == self {
      PickBeats(s, dst, s.self);
    } else {
      HeldOrBeyond(self, net, k, ops, ss, x);
      if PastFull(s.left, x, false) || PastFull(s.right, x, true) {
        PickBeatsOutside(s, dst, x);
      } else {
        var e :| (e in s.left || e in s.right) && e.isSet && e.addr == x;
        PickBeats(s, dst, e);
      }
    }
  }

  //// The range test as it is written

  /** The test passes exactly from the left bound it reads up to the right one. */
  lemma OnRangeIsInterval(s: State, dst: Addr, beyond: Beyond)
    requires Fits(s, dst, beyond)
    ensures OnRange(s, dst, beyond)
       <==> && Num(BoundRead(s.self.addr, s.left, beyond.left)) <= Num(dst)
            && Num(dst) <= Num(BoundRead(s.self.addr, s.right, beyond.right))
  {
    CmpIsNumericOrder(BoundRead(s.self.addr, s.left, beyond.left), dst);
    CmpIsNumericOrder(dst, BoundRead(s.self.addr, s.right, beyond.right));
  }

  /** What the test compares with on a side: self when the side is empty, the slot after the last leaf when
      there is one, and whatever follows the array when the side is full. */
  ghost predicate Bound(self: Addr, es: seq<Entry>, beyond: Addr, bound: Addr) {
    var count := SetPrefix(es);
    && (count == 0 ==> bound == self)
    && (0 < count < |es| ==> bound == es[count].addr)
    && (0 < count == |es| ==> bound == beyond)
  }

  /** As written, in every state: the test passes exactly for the destinations between two such bounds. */
  lemma OnRangeIff(s: State, dst: Addr, beyond: Beyond, low: Addr, high: Addr)
    requires Fits(s, dst, beyond)
    requires Bound(s.self.addr, s.left, beyond.left, low) && Bound(s.self.addr, s.right, beyond.right, high)
    ensures OnRange(s, dst, beyond) <==> Num(low) <= Num(dst) <= Num(high)
  {
    OnRangeIsInterval(s, dst, beyond);
  }

  lemma EndsAreBetween(s: State)
    requires Inv(s)
    ensures var l, r := Farthest(s.self, s.left).addr, Farthest(s.self, s.right).addr;
            && |l| == |r| == |s.self.addr| && Num(l) <= Num(s.self.addr) <= Num(r)
            && BetweenLeaves(s, l) && BetweenLeaves(s, r)
  {
  }

  /** In every state a run can reach, full sides and stale slots included: the written test covers every
      destination between the farthest leaves iff the bounds it reads are no nearer than those leaves. */
  lemma RangeTestCoversBetweenIff(s: State, beyond: Beyond)
    requires Inv(s) && |beyond.left| == |beyond.right| == |s.self.addr|
    ensures (forall dst: Addr | |dst| == |s.self.addr| ::
               BetweenLeaves(s, dst) ==> Fits(s, dst, beyond) && OnRange(s, dst, beyond))
       <==> && Num(BoundRead(s.self.addr, s.left, beyond.left)) <= Num(Farthest(s.self, s.left).addr)
            && Num(Farthest(s.self, s.right).addr) <= Num(BoundRead(s.self.addr, s.right, beyond.right))
  {
    var l, r := Farthest(s.self, s.left).addr, Farthest(s.self, s.right).addr;
    EndsAreBetween(s);
    OnRangeIsInterval(s, l, beyond);
    OnRangeIsInterval(s, r, beyond);
    forall dst: Addr | |dst| == |s.self.addr| && BetweenLeaves(s, dst)
      ensures Fits(s, dst, beyond)
      ensures OnRange(s, dst, beyond) <==>
                && Num(BoundRead(s.self.addr, s.left, beyond.left)) <= Num(dst)
                && Num(dst) <= Num(BoundRead(s.self.addr, s.right, beyond.right))
    {
      OnRangeIsInterval(s, dst, beyond);
    }
  }

  ghost predicate IsIntended(s: State, beyond: Beyond)
    requires Inv(s) && |beyond.left| == |beyond.right| == |s.self.addr|
  {
    forall dst: Addr | |dst| == |s.self.addr| ::
      Fits(s, dst, beyond) && (OnRange(s, dst, beyond) <==> BetweenLeaves(s, dst))
  }

  lemma BetweenIsInterval(s: State, dst: Addr)
    requires Inv(s) && |dst| == |s.self.addr|
    ensures BetweenLeaves(s, dst)
       <==> Num(Farthest(s.self, s.left).addr) <= Num(dst) <= Num(Farthest(s.self, s.right).addr)
  {
  }

  lemma IntendedReadsEnds(s: State, beyond: Beyond)
    requires Inv(s) && |beyond.left| == |beyond.right| == |s.self.addr| && IsIntended(s, beyond)
    ensures BoundRead(s.self.addr, s.left, beyond.left) == Farthest(s.self, s.left).addr
    ensures BoundRead(s.self.addr, s.right, beyond.right) == Farthest(s.self, s.right).addr
  {
    var l, r := Farthest(s.self, s.left).addr, Farthest(s.self, s.right).addr;
    var bl, br := BoundRead(s.self.addr, s.left, beyond.left), BoundRead(s.self.addr, s.right, beyond.right);
    EndsAreBetween(s);
    OnRangeIsInterval(s, l, beyond);
    OnRangeIsInterval(s, r, beyond);
    assert OnRange(s, l, beyond) && OnRange(s, r, beyond);
    OnRangeIsInterval(s, bl, beyond);
    OnRangeIsInterval(s, br, beyond);
    BetweenIsInterval(s, bl);
    BetweenIsInterval(s, br);
    NumInjective(bl, l);
    NumInjective(br, r);
  }

  /** And it is the intended test iff it reads the farthest leaves themselves. */
  lemma RangeTestIsIntendedIff(s: State, beyond: Beyond)
    requires Inv(s) && |beyond.left| == |beyond.right| == |s.self.addr|
    ensures IsIntended(s, beyond)
       <==> && BoundRead(s.self.addr, s.left, beyond.left) == Farthest(s.self, s.left).addr
            && BoundRead(s.self.addr, s.right, beyond.right) == Farthest(s.self, s.right).addr
  {
    if IsIntended(s, beyond) {
      IntendedReadsEnds(s, beyond);
    } else {
      var dst: Addr :| |dst| == |s.self.addr|
        && !(Fits(s, dst, beyond) && (OnRange(s, dst, beyond) <==> BetweenLeaves(s, dst)));
      OnRangeIsInterval(s, dst, beyond);
      BetweenIsInterval(s, dst);
    }
  }

  ghost predicate BlankFrom(es: seq<Entry>, m: nat, n: nat) {
    forall i :: m <= i < |es| ==> es[i] == Blank(n)
  }

  lemma SortLeavesBlank(before: seq<Entry>, after: seq<Entry>, right: bool, n: nat)
    requires SortedFrom(before, after, right) && BlankFrom(before, SetPrefix(before), n)
    ensures BlankFrom(after, SetPrefix(before), n)
  {
    var m := SetPrefix(before);
    forall i | m <= i < |after| ensures after[i] == Blank(n) {
      assert after[m..][i - m] == before[m..][i - m];
    }
  }

  lemma PlacedLeavesBlank(es: seq<Entry>, e: Entry, right: bool)
    requires es != [] && e.isSet && AllOfLength(es, |e.addr|) && Ordered(es, right)
    requires BlankFrom(es, SetPrefix(es), |e.addr|)
    ensures BlankFrom(Placed(es, e), SetPrefix(Placed(es, e)), |e.addr|)
  {
    PlacedKeys(es, e, right);
  }

  lemma FreeSlotsStayBlank(es: seq<Entry>, es': seq<Entry>, e: Entry, right: bool)
    requires es != [] && e.isSet && AllOfLength(es, |e.addr|) && Ordered(es, right)
    requires InsertStep(es, es', e, right) && BlankFrom(es, SetPrefix(es), |e.addr|)
    ensures |es'| == |es| && BlankFrom(es', SetPrefix(es'), |e.addr|)
  {
    if !Refused(es, e, right) {
      PlacedLeavesBlank(es, e, right);
      SortLeavesBlank(Placed(es, e), es', right, |e.addr|);
      PlacedEntriesKept(es, es', e, right);
      assert |Keys(es', right)| == |multiset(Keys(es', right))| == |Keys(Placed(es, e), right)|;
    }
  }

  lemma {:induction false} FreeSlotsBlank(self: Addr, net: NetAddr, k: nat, ops: seq<Op>, ss: seq<State>)
    requires Run(self, net, k, ops, ss) && AddsOnly(ops)
    ensures var s, b := ss[|ops|], Blank(|self|);
            && |s.left| == |s.right| == k
            && (forall i :: SetPrefix(s.left) <= i < k ==> s.left[i] == b)
            && (forall i :: SetPrefix(s.right) <= i < k ==> s.right[i] == b)
  {
    if ops != [] {
      var m := |ops| - 1;
      RunPrefix(self, net, k, ops, ss);
      FreeSlotsBlank(self, net, k, ops[..m], ss[..m + 1]);
      RunKeepsInv(self, net, k, ops[..m], ss[..m + 1]);
      var s, s' := ss[m], ss[m + 1];
      assert Step(s, ops[m], s');
      if GoesLeft(self, ops[m].addr) {
        FreeSlotsStayBlank(s.left, s'.left, Written(ops[m]), false);
      } else {
        FreeSlotsStayBlank(s.right, s'.right, Written(ops[m]), true);
      }
    }
  }

  /** After adds that fill neither side, a non-empty side's bound reads as the zero address. So
      the leafsets are consulted only at or below self when nothing lies above it, and for the
      zero address otherwise. */
  lemma RangeTestIff(self: Addr, net: NetAddr, k: nat, ops: seq<Op>, ss: seq<State>, dst: Addr, beyond: Beyond)
    requires Run(self, net, k, ops, ss) && AddsOnly(ops) && Fits(ss[|ops|], dst, beyond)
    requires ss[|ops|].self.addr == self && BothShort(ss[|ops|])
    ensures var s := ss[|ops|];
            OnRange(s, dst, beyond) <==>
              && (SetPrefix(s.left) == 0 ==> Num(self) <= Num(dst))
              && if SetPrefix(s.right) == 0 then Num(dst) <= Num(self) else dst == Zeros(|dst|)
  {
    var s := ss[|ops|];
    FreeSlotsBlank(self, net, k, ops, ss);
    CmpIsNumericOrder(self, dst);
    CmpIsNumericOrder(dst, self);
    CmpIsNumericOrder(Zeros(|dst|), dst);
    CmpIsNumericOrder(dst, Zeros(|dst|));
    ZeroIff(Zeros(|dst|));
    ZeroIff(dst);
  }

  /** A router that holds a leaf has survived a call, so its address is not zero. */
  lemma SlotNeverZeroSelf(self: Addr, net: NetAddr, k: nat, ops: seq<Op>, ss: seq<State>)
    requires Run(self, net, k, ops, ss) && SetPrefix(ss[|ops|].right) != 0
    ensures self != Zeros(|self|)
  {
    if ops == [] {
      InitInv(self, net, k);
    } else {
      assert Step(ss[0], ops[0], ss[1]);
      FirstCallNeedsNonZero(self, net, k, ops[0], ss[0]);
    }
  }

  /** So after adds that fill neither side it does iff nothing is known above the router. */
  lemma RangeTestCoversIff(self: Addr, net: NetAddr, k: nat, ops: seq<Op>, ss: seq<State>, beyond: Beyond)
    requires Run(self, net, k, ops, ss) && AddsOnly(ops) && Fits(ss[|ops|], self, beyond)
    requires ss[|ops|].self.addr == self && BothShort(ss[|ops|])
    ensures (forall dst: Addr | |dst| == |self| ::
               BetweenLeaves(ss[|ops|], dst) ==> Fits(ss[|ops|], dst, beyond) && OnRange(ss[|ops|], dst, beyond))
       <==> SetPrefix(ss[|ops|].right) == 0
  {
    var s := ss[|ops|];
    RunKeepsInv(self, net, k, ops, ss);
    FreeSlotsBlank(self, net, k, ops, ss);
    RangeTestCoversBetweenIff(s, beyond);
    EndsAreBetween(s);
    ZeroIff(Zeros(|self|));
    if SetPrefix(s.right) != 0 {
      SlotNeverZeroSelf(self, net, k, ops, ss);
      ZeroIff(self);
    }
  }

  /** As written: whenever the range test passes, for a destination between the farthest leaves or
      with neither side full, the next hop (self when unset) is at minimal distance among self and
      every address ever added. */
  lemma NextHopIsOptimal(self: Addr, net: NetAddr, k: nat, ops: seq<Op>, ss: seq<State>,
                         dst: Addr, beyond: Beyond, x: Addr)
    requires Run(self, net, k, ops, ss) && AddsOnly(ops) && Known(self, ops, x)
    requires Fits(ss[|ops|], dst, beyond) && BorrowSafe(dst) && ss[|ops|].self.addr == self
    requires OnRange(ss[|ops|], dst, beyond)
    requires BothShort(ss[|ops|]) || BetweenLeaves(ss[|ops|], dst)
    ensures var e := NextHop(ss[|ops|], dst, beyond);
            && |x| == |dst|
            && (e.isSet <==> e.addr != self)
            && Far(e.addr, dst) <= Far(x, dst)
  {
    RunKeepsInv(self, net, k, ops, ss);
    LeafsetPickIsOptimal(self, net, k, ops, ss, dst, x);
    LeafsetPickIsNearest(ss[|ops|], dst, ss[|ops|].self);
    CmpIsNumericOrder(LeafsetPick(ss[|ops|], dst).addr, self);
  }

  /** With the intended bounds: the same for every destination between the farthest leaves,
      full leafsets and evicted addresses included. */
  lemma IntendedNextHopIsOptimal(self: Addr, net: NetAddr, k: nat, ops: seq<Op>, ss: seq<State>, dst: Addr, x: Addr)
    requires Run(self, net, k, ops, ss) && AddsOnly(ops) && Known(self, ops, x)
    requires Inv(ss[|ops|]) && ss[|ops|].self.addr == self
    requires |dst| == |self| && BorrowSafe(dst) && BetweenLeaves(ss[|ops|], dst)
    ensures var e := NextHopWith(ss[|ops|], dst, BetweenLeaves(ss[|ops|], dst));
            && |x| == |dst|
            && (e.isSet <==> e.addr != self)
            && Far(e.addr, dst) <= Far(x, dst)
  {
    LeafsetPickIsOptimal(self, net, k, ops, ss, dst, x);
    LeafsetPickIsNearest(ss[|ops|], dst, ss[|ops|].self);
    CmpIsNumericOrder(LeafsetPick(ss[|ops|], dst).addr, self);
  }
}
