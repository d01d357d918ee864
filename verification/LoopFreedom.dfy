/** Paths of hops through many routers, and when they can come back to a router. */
module LoopFreedom {
  import opened Address
  import opened RingDistance
  import opened Entries
  import opened RouterStates
  import opened NextHops

  /** A router as it is when the packet passes, and what its range test answered. */
  datatype Hop = Hop(at: State, inRange: bool)

  function Where(h: Hop): Addr {
    h.at.self.addr
  }

  ghost predicate Placed(dst: Addr, h: Hop) {
    Inv(h.at) && |Where(h)| == |dst|
  }

  function Answer(dst: Addr, h: Hop): Entry
    requires Shape(h.at) && |Where(h)| == |dst|
  {
    NextHopWith(h.at, dst, h.inRange)
  }

  ghost predicate Forwards(dst: Addr, h: Hop, next: Hop)
    requires Placed(dst, h)
  {
    Answer(dst, h).isSet && Answer(dst, h).addr == Where(next)
  }

  /** Every element is ok, and each is followed by a next one. */
  ghost predicate Chain(hops: seq<Hop>, ok: Hop -> bool, next: (Hop, Hop) -> bool) {
    && (forall i :: 0 <= i < |hops| ==> ok(hops[i]))
    && (forall i :: 0 <= i < |hops| - 1 ==> next(hops[i], hops[i + 1]))
  }

  ghost function PlacedFor(dst: Addr): Hop -> bool {
    h => Placed(dst, h)
  }

  ghost function ForwardsFor(dst: Addr): (Hop, Hop) -> bool {
    (h, next) => Placed(dst, h) && Forwards(dst, h, next)
  }

  /** Each router forwards to the next one. Routers may know anything and change over time. */
  ghost predicate Path(dst: Addr, hops: seq<Hop>)
    ensures Path(dst, hops) ==> forall i :: 0 <= i < |hops| ==> Placed(dst, hops[i])
  {
    assert forall i :: 0 <= i < |hops| && PlacedFor(dst)(hops[i]) ==> Placed(dst, hops[i]);
    Chain(hops, PlacedFor(dst), ForwardsFor(dst))
  }

  function BranchAt(dst: Addr, h: Hop): Branch
    requires Shape(h.at) && |Where(h)| == |dst|
  {
    BranchTaken(h.at, dst, h.inRange)
  }

  /** The hop does not lose nibbles shared with the destination. */
  ghost predicate KeepsNibbles(dst: Addr, h: Hop)
    requires Shape(h.at) && |Where(h)| == |dst|
  {
    Level(Answer(dst, h).addr, dst) >= Level(Where(h), dst)
  }

  /** Rank of a router on the way to dst: nibbles still missing, then distance. */
  datatype Rank = Rank(missing: int, dist: int)

  function RankOf(a: Addr, dst: Addr): Rank
    requires |a| == |dst| > 0
  {
    Rank(2 * |dst| - Level(a, dst), DistNum(a, dst))
  }

  /** Lexicographic order. Both components are naturals, so it cannot fall for ever. */
  predicate Below(r: Rank, s: Rank) {
    r.missing < s.missing || (r.missing == s.missing && r.dist < s.dist)
  }

  /** Only a leafset hop can lose shared nibbles; any hop that does not lose some lowers the rank. */
  lemma HopLowersRank(dst: Addr, h: Hop)
    requires Inv(h.at) && |Where(h)| == |dst| && Answer(dst, h).isSet
    ensures dst != []
    ensures BranchAt(dst, h) == TableHit || BranchAt(dst, h) == BestAnswer ==> KeepsNibbles(dst, h)
    ensures BranchAt(dst, h) != TableHit ==> DistNum(Answer(dst, h).addr, dst) < DistNum(Where(h), dst)
    ensures KeepsNibbles(dst, h) ==> Below(RankOf(Answer(dst, h).addr, dst), RankOf(Where(h), dst))
  {
    HopMakesProgress(h.at, dst, h.inRange);
  }

  ghost predicate AllKeepNibbles(dst: Addr, hops: seq<Hop>, i: nat, j: nat)
    requires Path(dst, hops) && j <= |hops|
  {
    forall p :: i <= p < j ==> KeepsNibbles(dst, hops[p])
  }

  ghost predicate NoTableHit(dst: Addr, hops: seq<Hop>, i: nat, j: nat)
    requires Path(dst, hops) && j <= |hops|
  {
    forall p :: i <= p < j ==> BranchAt(dst, hops[p]) != TableHit
  }

  /** The ranks and the distances met along a path. */
  ghost function Ranks(dst: Addr, hops: seq<Hop>): (r: seq<Rank>)
    requires dst != [] && Path(dst, hops)
    ensures |r| == |hops|
  {
    seq(|hops|, i requires 0 <= i < |hops| => RankOf(Where(hops[i]), dst))
  }

  ghost function Distances(dst: Addr, hops: seq<Hop>): (r: seq<int>)
    requires dst != [] && Path(dst, hops)
    ensures |r| == |hops|
  {
    seq(|hops|, i requires 0 <= i < |hops| => DistNum(Where(hops[i]), dst))
  }

  lemma {:induction false} RanksFall(r: seq<Rank>, i: nat, j: nat)
    requires i < j < |r| && forall p :: i <= p < j ==> Below(r[p + 1], r[p])
    ensures Below(r[j], r[i])
    decreases j
  {
    if i < j - 1 {
      RanksFall(r, i, j - 1);
      assert Below(r[j - 1 + 1], r[j - 1]);
    }
  }

  lemma {:induction false} DistancesFall(r: seq<int>, i: nat, j: nat)
    requires i < j < |r| && forall p :: i <= p < j ==> r[p + 1] < r[p]
    ensures r[j] < r[i]
    decreases j
  {
    if i < j - 1 {
      DistancesFall(r, i, j - 1);
    }
  }

  lemma OnPath(dst: Addr, hops: seq<Hop>, p: nat)
    requires Path(dst, hops) && p + 1 < |hops|
    ensures dst != []
    ensures KeepsNibbles(dst, hops[p]) ==> Below(Ranks(dst, hops)[p + 1], Ranks(dst, hops)[p])
    ensures BranchAt(dst, hops[p]) != TableHit ==> Distances(dst, hops)[p + 1] < Distances(dst, hops)[p]
    ensures !KeepsNibbles(dst, hops[p]) ==> BranchAt(dst, hops[p]) == LeafsetBranch
  {
    var h, next := hops[p], Where(hops[p + 1]);
    assert ForwardsFor(dst)(h, hops[p + 1]);
    HopLowersRank(dst, h);
    HopMakesProgress(h.at, dst, h.inRange);
  }

  /** A packet that comes back to a router has, in between, taken both a leafset hop that lost
      shared nibbles and a table hop. */
  lemma RevisitNeedsBoth(dst: Addr, hops: seq<Hop>, i: nat, j: nat)
    requires Path(dst, hops) && i < j < |hops| && Where(hops[i]) == Where(hops[j])
    ensures exists p :: i <= p < j && BranchAt(dst, hops[p]) == LeafsetBranch && !KeepsNibbles(dst, hops[p])
    ensures exists q :: i <= q < j && BranchAt(dst, hops[q]) == TableHit
  {
    OnPath(dst, hops, i);
    if AllKeepNibbles(dst, hops, i, j) {
      forall p | i <= p < j ensures Below(Ranks(dst, hops)[p + 1], Ranks(dst, hops)[p]) {
        OnPath(dst, hops, p);
      }
      RanksFall(Ranks(dst, hops), i, j);
    }
    var p :| i <= p < j && !KeepsNibbles(dst, hops[p]);
    OnPath(dst, hops, p);
    if NoTableHit(dst, hops, i, j) {
      forall p | i <= p < j ensures Distances(dst, hops)[p + 1] < Distances(dst, hops)[p] {
        OnPath(dst, hops, p);
      }
      DistancesFall(Distances(dst, hops), i, j);
    }
  }

  /** A run of table and best-answer hops never visits a router twice, whatever each one knows. */
  lemma TableAndBestHopsNeverRevisit(dst: Addr, hops: seq<Hop>, i: nat, j: nat)
    requires Path(dst, hops) && i < j < |hops|
    requires forall p :: i <= p < j ==> BranchAt(dst, hops[p]) == TableHit || BranchAt(dst, hops[p]) == BestAnswer
    ensures Where(hops[i]) != Where(hops[j])
  {
    if Where(hops[i]) == Where(hops[j]) {
      RevisitNeedsBoth(dst, hops, i, j);
    }
  }

  //// Two routers sending to each other

  /** Two hops taken in turn. */
  function Bounce(h: Hop, g: Hop, len: nat): (hops: seq<Hop>)
    ensures |hops| == len && forall i :: 0 <= i < len ==> hops[i] == if i % 2 == 0 then h else g
  {
    seq(len, i => if i % 2 == 0 then h else g)
  }

  lemma BounceIsPath(dst: Addr, h: Hop, g: Hop, len: nat)
    requires Placed(dst, h) && Placed(dst, g) && Forwards(dst, h, g) && Forwards(dst, g, h)
    ensures Path(dst, Bounce(h, g, len))
  {
    BounceIsChain(h, g, len, PlacedFor(dst), ForwardsFor(dst));
  }

  lemma BounceIsChain(h: Hop, g: Hop, len: nat, ok: Hop -> bool, next: (Hop, Hop) -> bool)
    requires ok(h) && ok(g) && next(h, g) && next(g, h)
    ensures Chain(Bounce(h, g, len), ok, next)
  {
    var hops := Bounce(h, g, len);
    forall i | 0 <= i < len - 1 ensures next(hops[i], hops[i + 1]) {
      assert i % 2 == 0 <==> (i + 1) % 2 == 1;
    }
  }

  /** Two hops go on for ever exactly when each forwards to the other. */
  lemma BouncesIff(dst: Addr, h: Hop, g: Hop)
    requires Placed(dst, h) && Placed(dst, g)
    ensures (forall len: nat :: Path(dst, Bounce(h, g, len))) <==> Forwards(dst, h, g) && Forwards(dst, g, h)
  {
    if Forwards(dst, h, g) && Forwards(dst, g, h) {
      forall len: nat ensures Path(dst, Bounce(h, g, len)) {
        BounceIsPath(dst, h, g, len);
      }
    }
    if Path(dst, Bounce(h, g, 3)) {
      var hops := Bounce(h, g, 3);
      assert ForwardsFor(dst)(hops[0], hops[1]) && ForwardsFor(dst)(hops[1], hops[2]);
    }
  }
}
