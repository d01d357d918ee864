/** Choosing the next hop, and the progress every hop makes. */
module NextHops {
  import opened Options
  import opened Address
  import opened RingDistance
  import opened DistanceLaws
  import opened Entries
  import opened RouterStates

  /** The addresses found one entry past the end of each leafset array: foreign memory. */
  datatype Beyond = Beyond(left: Addr, right: Addr)

  /** The bound the range test reads: the slot after the last leaf, not the last leaf itself. */
  function BoundRead(self: Addr, es: seq<Entry>, beyond: Addr): Addr {
    var count := SetPrefix(es);
    if count == 0 then self
    else if count < |es| then es[count].addr
    else beyond
  }

  ghost predicate Fits(s: State, dst: Addr, beyond: Beyond) {
    Shape(s) && |dst| == |beyond.left| == |beyond.right| == |s.self.addr|
  }

  /** The range test as it is written. */
  predicate OnRange(s: State, dst: Addr, beyond: Beyond)
    requires Fits(s, dst, beyond)
  {
    && Cmp(BoundRead(s.self.addr, s.left, beyond.left), dst) <= 0
    && Cmp(dst, BoundRead(s.self.addr, s.right, beyond.right)) <= 0
  }

  /** The range test as intended: from the farthest left leaf to the farthest right one. */
  ghost predicate BetweenLeaves(s: State, dst: Addr)
    requires Shape(s) && |dst| == |s.self.addr|
  {
    var l, r := SetPrefix(s.left), SetPrefix(s.right);
    && Num(if l == 0 then s.self.addr else s.left[l - 1].addr) <= Num(dst)
    && Num(dst) <= Num(if r == 0 then s.self.addr else s.right[r - 1].addr)
  }

  /** An answer naming the router itself is handed back unset. */
  function SettleSelf(s: State, e: Entry): Entry
    requires |e.addr| == |s.self.addr|
  {
    if Cmp(e.addr, s.self.addr) == 0 then e.(isSet := false) else e
  }

  function LeafsetBests(s: State, dst: Addr): (bests: seq<Entry>)
    requires Shape(s) && |dst| == |s.self.addr|
    ensures Comparable(dst, bests, None)
  {
    [s.self, Closest(dst, s.left, None, 0, s.self), Closest(dst, s.right, None, 0, s.self)]
  }

  function LeafsetPick(s: State, dst: Addr): (e: Entry)
    requires Shape(s) && |dst| == |s.self.addr|
    ensures |e.addr| == |dst|
  {
    Closest(dst, LeafsetBests(s, dst), None, 0, s.self)
  }

  function AnswerBests(s: State, dst: Addr): (bests: seq<Entry>)
    requires Shape(s) && |dst| == |s.self.addr| && Level(s.self.addr, dst) < |s.table|
    ensures Comparable(dst, bests, None)
  {
    var self, level := s.self.addr, Level(s.self.addr, dst);
    [s.self, Closest(dst, s.table[level], None, 0, s.self),
     Closest(dst, s.left, Some(self), level, s.self), Closest(dst, s.right, Some(self), level, s.self)]
  }

  function AnswerPick(s: State, dst: Addr): (e: Entry)
    requires Shape(s) && |dst| == |s.self.addr| && Level(s.self.addr, dst) < |s.table|
    ensures |e.addr| == |dst|
  {
    Closest(dst, AnswerBests(s, dst), None, 0, s.self)
  }

  /** The three ways an entry can be chosen. */
  datatype Branch = LeafsetBranch | NoIndex | TableHit | BestAnswer

  function BranchTaken(s: State, dst: Addr, inRange: bool): (b: Branch)
    requires Shape(s) && |dst| == |s.self.addr|
    ensures b == TableHit || b == BestAnswer ==>
              Level(s.self.addr, dst) < |s.table| && Column(s.self.addr, dst) < COLUMNS
  {
    var level, column := Level(s.self.addr, dst), Column(s.self.addr, dst);
    if inRange then LeafsetBranch
    else if level >= |s.table| || column >= COLUMNS then NoIndex
    else if s.table[level][column].isSet then TableHit
    else BestAnswer
  }

  /** The next hop, given the outcome of the range test. */
  function NextHopWith(s: State, dst: Addr, inRange: bool): (e: Entry)
    requires Shape(s) && |dst| == |s.self.addr|
    ensures |e.addr| == |dst|
  {
    match BranchTaken(s, dst, inRange)
    case LeafsetBranch => SettleSelf(s, LeafsetPick(s, dst))
    case NoIndex => s.self.(isSet := false)
    case TableHit => s.table[Level(s.self.addr, dst)][Column(s.self.addr, dst)]
    case BestAnswer => SettleSelf(s, AnswerPick(s, dst))
  }

  function NextHop(s: State, dst: Addr, beyond: Beyond): (e: Entry)
    requires Fits(s, dst, beyond)
    ensures |e.addr| == |dst|
  {
    NextHopWith(s, dst, OnRange(s, dst, beyond))
  }

  lemma NextHopCases(s: State, dst: Addr, inRange: bool)
    requires Shape(s) && |dst| == |s.self.addr|
    ensures var level, column, e := Level(s.self.addr, dst), Column(s.self.addr, dst), NextHopWith(s, dst, inRange);
            if inRange then e == SettleSelf(s, LeafsetPick(s, dst))
            else if level >= |s.table| || column >= COLUMNS then e == s.self.(isSet := false)
            else if s.table[level][column].isSet then e == s.table[level][column]
            else e == SettleSelf(s, AnswerPick(s, dst))
  {
  }

  //// Every hop makes progress

  ghost predicate HeldInTable(s: State, e: Entry) {
    exists l, c :: 0 <= l < |s.table| && 0 <= c < |s.table[l]| && s.table[l][c] == e
  }

  ghost predicate HeldBy(s: State, e: Entry) {
    HeldInTable(s, e) || e in s.left || e in s.right
  }

  /** A candidate reported by a search that did not take part in it is unset. */
  lemma ClosestComesFrom(dst: Addr, cs: seq<Entry>, ref: Option<Addr>, minLevel: nat, prior: Entry)
    requires Comparable(dst, cs, ref)
    ensures var c := Closest(dst, cs, ref, minLevel, prior);
            c.isSet ==> c in cs && Eligible(c, ref, minLevel)
  {
    ClosestIsFirstMinimiser(dst, cs, ref, minLevel, prior);
  }

  /** Only something strictly closer displaces the first candidate. */
  lemma DisplacesFirst(dst: Addr, cs: seq<Entry>, prior: Entry)
    requires Comparable(dst, cs, None) && cs != [] && cs[0].isSet
    ensures var c := Closest(dst, cs, None, 0, prior);
            && c.isSet && c in cs
            && (c == cs[0] || DistNum(c.addr, dst) < DistNum(cs[0].addr, dst))
  {
    ClosestIsFirstMinimiser(dst, cs, None, 0, prior);
    var c := Closest(dst, cs, None, 0, prior);
    assert Eligible(cs[0], None, 0);
    var i :| FirstMinimiser(dst, cs, None, 0, i) && c == cs[i];
  }

  lemma LeafsetHop(s: State, dst: Addr)
    requires Inv(s) && |dst| == |s.self.addr|
    ensures var e := NextHopWith(s, dst, true);
            e.isSet ==> && HeldBy(s, e) && e.addr != s.self.addr
                        && DistNum(e.addr, dst) < DistNum(s.self.addr, dst)
  {
    var p := LeafsetPick(s, dst);
    DisplacesFirst(dst, LeafsetBests(s, dst), s.self);
    ClosestComesFrom(dst, s.left, None, 0, s.self);
    ClosestComesFrom(dst, s.right, None, 0, s.self);
    CmpIsNumericOrder(p.addr, s.self.addr);
  }

  lemma TableHop(s: State, dst: Addr, inRange: bool)
    requires Inv(s) && |dst| == |s.self.addr| && BranchTaken(s, dst, inRange) == TableHit
    ensures var e := NextHopWith(s, dst, inRange);
            && e.isSet && HeldBy(s, e) && e.addr != s.self.addr
            && Level(e.addr, dst) > Level(s.self.addr, dst)
  {
    var self, l, c := s.self.addr, Level(s.self.addr, dst), Column(s.self.addr, dst);
    var e := s.table[l][c];
    assert SlotOk(self, l, c, e);
    assert HeldInTable(s, e);
    LevelChains(self, e.addr, dst, l);
  }

  lemma RowEntryHeld(s: State, l: nat, e: Entry)
    requires Inv(s) && l < |s.table| && e in s.table[l] && e.isSet
    ensures HeldInTable(s, e) && |e.addr| == |s.self.addr| && Level(s.self.addr, e.addr) == l
  {
    var c :| 0 <= c < |s.table[l]| && s.table[l][c] == e;
    assert SlotOk(s.self.addr, l, c, s.table[l][c]);
  }

  /** A set best answer other than self is a held entry sharing enough nibbles. */
  lemma BestAnswerHeld(s: State, dst: Addr, e: Entry)
    requires Inv(s) && |dst| == |s.self.addr| && Level(s.self.addr, dst) < |s.table|
    requires e in AnswerBests(s, dst)[1..] && e.isSet
    ensures HeldBy(s, e) && Level(s.self.addr, e.addr) >= Level(s.self.addr, dst)
  {
    var self, l := s.self.addr, Level(s.self.addr, dst);
    ClosestComesFrom(dst, s.table[l], None, 0, s.self);
    ClosestComesFrom(dst, s.left, Some(self), l, s.self);
    ClosestComesFrom(dst, s.right, Some(self), l, s.self);
    if e in s.table[l] {
      RowEntryHeld(s, l, e);
    }
  }

  lemma BestAnswerHop(s: State, dst: Addr, inRange: bool)
    requires Inv(s) && |dst| == |s.self.addr| && BranchTaken(s, dst, inRange) == BestAnswer
    ensures var e := NextHopWith(s, dst, inRange);
            e.isSet ==> && HeldBy(s, e) && e.addr != s.self.addr
                        && DistNum(e.addr, dst) < DistNum(s.self.addr, dst)
                        && Level(e.addr, dst) >= Level(s.self.addr, dst)
  {
    var p, bests := AnswerPick(s, dst), AnswerBests(s, dst);
    DisplacesFirst(dst, bests, s.self);
    CmpIsNumericOrder(p.addr, s.self.addr);
    if p.addr != s.self.addr {
      assert bests == [bests[0]] + bests[1..];
      BestAnswerHeld(s, dst, p);
      LevelChains(s.self.addr, p.addr, dst, Level(s.self.addr, dst));
    }
  }

  /** Whatever the range test says: a set next hop is a known foreign entry that shares more
      nibbles with the destination (table), is closer (leafsets), or is closer without sharing
      fewer nibbles (best answer). */
  lemma HopMakesProgress(s: State, dst: Addr, inRange: bool)
    requires Inv(s) && |dst| == |s.self.addr|
    ensures var e := NextHopWith(s, dst, inRange);
            e.isSet ==>
              && HeldBy(s, e) && e.addr != s.self.addr
              && match BranchTaken(s, dst, inRange)
                 case LeafsetBranch => DistNum(e.addr, dst) < DistNum(s.self.addr, dst)
                 case NoIndex => false
                 case TableHit => Level(e.addr, dst) > Level(s.self.addr, dst)
                 case BestAnswer => && DistNum(e.addr, dst) < DistNum(s.self.addr, dst)
                                    && Level(e.addr, dst) >= Level(s.self.addr, dst)
  {
    match BranchTaken(s, dst, inRange)
    case LeafsetBranch => LeafsetHop(s, dst);
    case NoIndex =>
    case TableHit => TableHop(s, dst, inRange);
    case BestAnswer => BestAnswerHop(s, dst, inRange);
  }

  /** A packet for the router itself is always kept. */
  lemma OwnAddressStays(s: State, inRange: bool)
    requires Inv(s)
    ensures !NextHopWith(s, s.self.addr, inRange).isSet
  {
    var self := s.self.addr;
    LevelSymmetric(self, self);
    if inRange {
      DisplacesFirst(self, LeafsetBests(s, self), s.self);
      SelfDistance(self);
      CmpIsNumericOrder(LeafsetPick(s, self).addr, self);
    }
  }

  lemma SelfDistance(a: Addr)
    requires a != []
    ensures DistNum(a, a) == 0
  {
    DistZeroIff(a, a);
  }

  //// The leafset pick minimises over everything in both leafsets

  lemma LeafsetPickIsNearest(s: State, dst: Addr, e: Entry)
    requires Inv(s) && |dst| == |s.self.addr|
    requires e == s.self || (e.isSet && (e in s.left || e in s.right))
    ensures |e.addr| == |dst|
    ensures LeafsetPick(s, dst).isSet
    ensures DistNum(LeafsetPick(s, dst).addr, dst) <= DistNum(e.addr, dst)
  {
    ClosestOfClosests(s, dst);
    NoneCloser(dst, [s.self] + s.left + s.right, None, 0, s.self, e);
  }

  lemma NoneCloser(dst: Addr, cs: seq<Entry>, ref: Option<Addr>, minLevel: nat, prior: Entry, e: Entry)
    requires Comparable(dst, cs, ref) && e in cs && |e.addr| == |dst| && Eligible(e, ref, minLevel)
    ensures var c := Closest(dst, cs, ref, minLevel, prior);
            c.isSet && |c.addr| == |dst| && DistNum(c.addr, dst) <= DistNum(e.addr, dst)
  {
    ClosestIsFirstMinimiser(dst, cs, ref, minLevel, prior);
    var j :| 0 <= j < |cs| && cs[j] == e;
    assert Eligible(cs[j], ref, minLevel);
    var i :| FirstMinimiser(dst, cs, ref, minLevel, i) && Closest(dst, cs, ref, minLevel, prior) == cs[i];
  }

  /** The best answer is the nearest of self, the table row of the destination's level, and the
      leaves that share at least that many nibbles with self. */
  lemma AnswerPickIsNearest(s: State, dst: Addr, e: Entry)
    requires Shape(s) && |dst| == |s.self.addr| && Level(s.self.addr, dst) < |s.table| && e.isSet
    requires var l := Level(s.self.addr, dst);
             || e == s.self || e in s.table[l]
             || ((e in s.left || e in s.right) && |e.addr| == |dst| && Level(s.self.addr, e.addr) >= l)
    ensures |e.addr| == |dst| && AnswerPick(s, dst).isSet
    ensures DistNum(AnswerPick(s, dst).addr, dst) <= DistNum(e.addr, dst)
  {
    var self, l := Some(s.self.addr), Level(s.self.addr, dst);
    var bests := AnswerBests(s, dst);
    assert bests[0] == s.self;
    if e == s.self {
      NoneCloser(dst, bests, None, 0, s.self, e);
    } else if e in s.table[l] {
      NoneCloser(dst, s.table[l], None, 0, s.self, e);
      NoneCloser(dst, bests, None, 0, s.self, bests[1]);
    } else if e in s.left {
      NoneCloser(dst, s.left, self, l, s.self, e);
      NoneCloser(dst, bests, None, 0, s.self, bests[2]);
    } else {
      NoneCloser(dst, s.right, self, l, s.self, e);
      NoneCloser(dst, bests, None, 0, s.self, bests[3]);
    }
  }

  /** The closest of closests is the closest of self, left and right leafset read in that order. */
  lemma ClosestOfClosests(s: State, dst: Addr)
    requires Shape(s) && |dst| == |s.self.addr|
    ensures Comparable(dst, [s.self] + s.left + s.right, None)
    ensures LeafsetPick(s, dst) == Closest(dst, [s.self] + s.left + s.right, None, 0, s.self)
  {
    var c, d := Closest(dst, s.left, None, 0, s.self), Closest(dst, s.right, None, 0, s.self);
    ClosestOfThree(dst, [s.self], s.left, s.right, s.self);
    ClosestOfOne(dst, s.self, s.self);
    ClosestOfThreeEntries(dst, s.self, c, d, s.self);
    ClosestUnset(dst, s.left, s.self);
    ClosestUnset(dst, s.right, s.self);
  }

  lemma ClosestUnset(dst: Addr, cs: seq<Entry>, prior: Entry)
    requires Comparable(dst, cs, None)
    ensures var c := Closest(dst, cs, None, 0, prior); !c.isSet ==> c == prior.(isSet := false)
  {
    ClosestIsFirstMinimiser(dst, cs, None, 0, prior);
  }

  function OrUnset(e: Entry, prior: Entry): Entry {
    if e.isSet then e else prior.(isSet := false)
  }

  lemma ClosestOfThreeEntries(dst: Addr, x: Entry, y: Entry, z: Entry, prior: Entry)
    requires |x.addr| == |y.addr| == |z.addr| == |prior.addr| == |dst| > 0
    ensures Comparable(dst, [x, y, z], None)
    ensures Closest(dst, [x, y, z], None, 0, prior)
            == Nearer(dst, Nearer(dst, OrUnset(x, prior), OrUnset(y, prior)), OrUnset(z, prior))
  {
    ClosestOfOne(dst, x, prior);
    ClosestOfOne(dst, y, prior);
    ClosestOfOne(dst, z, prior);
    ClosestOfThree(dst, [x], [y], [z], prior);
    assert [x] + [y] + [z] == [x, y, z];
  }

  lemma ClosestOfThree(dst: Addr, xs: seq<Entry>, ys: seq<Entry>, zs: seq<Entry>, prior: Entry)
    requires Comparable(dst, xs, None) && Comparable(dst, ys, None) && Comparable(dst, zs, None)
    requires |prior.addr| == |dst|
    ensures Comparable(dst, xs + ys + zs, None)
    ensures Closest(dst, xs + ys + zs, None, 0, prior)
            == Nearer(dst, Nearer(dst, Closest(dst, xs, None, 0, prior), Closest(dst, ys, None, 0, prior)),
                      Closest(dst, zs, None, 0, prior))
  {
    ClosestOfConcat(dst, xs, ys, None, 0, prior);
    ClosestOfConcat(dst, xs + ys, zs, None, 0, prior);
  }

  lemma ClosestOfOne(dst: Addr, e: Entry, prior: Entry)
    requires |dst| == |e.addr| > 0
    ensures Comparable(dst, [e], None)
    ensures Closest(dst, [e], None, 0, prior) == if e.isSet then e else prior.(isSet := false)
  {
    ClosestIsFirstMinimiser(dst, [e], None, 0, prior);
    assert Eligible([e][0], None, 0) <==> e.isSet;
  }
}
