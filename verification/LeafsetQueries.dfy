/** What the positions of a leafset query mean: where the leaves stand, and in what order. */
module LeafsetQueries {
  import opened Address
  import opened Entries
  import opened Sorting
  import opened Leafsets
  import opened RouterStates
  import opened Queries

  lemma LeafKey(es: seq<Entry>, i: nat, right: bool)
    requires Ordered(es, right) && i < |es| && es[i].isSet
    ensures i < SetPrefix(es) && Keys(es, right)[i] == Key(es[i], right)
  {
  }

  /** Position 0 is the router itself, set positive positions lie above it and set negative ones below. */
  lemma SidesOfPositions(s: State, p: int)
    requires Inv(s) && -|s.left| <= p <= |s.right|
    ensures p == 0 ==> LeafAt(s, p) == s.self
    ensures p > 0 ==> LeafAt(s, p) == s.right[p - 1]
    ensures p < 0 ==> LeafAt(s, p) == s.left[-p - 1]
    ensures LeafAt(s, p).isSet ==> (Num(LeafAt(s, p).addr) > Num(s.self.addr) <==> p > 0)
    ensures LeafAt(s, p).isSet ==> (Num(LeafAt(s, p).addr) < Num(s.self.addr) <==> p < 0)
  {
  }

  /** Over set positions the addresses ascend. */
  lemma PositionsAscend(s: State, p: int, q: int)
    requires Inv(s) && -|s.left| <= p < q <= |s.right| && LeafAt(s, p).isSet && LeafAt(s, q).isSet
    ensures Num(LeafAt(s, p).addr) <= Num(LeafAt(s, q).addr)
    ensures p <= 0 <= q ==> Num(LeafAt(s, p).addr) < Num(LeafAt(s, q).addr)
  {
    SidesOfPositions(s, p);
    SidesOfPositions(s, q);
    if p > 0 {
      LeafKey(s.right, p - 1, true);
      LeafKey(s.right, q - 1, true);
    } else if q < 0 {
      LeafKey(s.left, -p - 1, false);
      LeafKey(s.left, -q - 1, false);
    }
  }

  lemma ListedInOrder(s: State, pMin: int, pMax: int, at: seq<nat>, i: nat, j: nat)
    requires Inv(s) && -|s.left| <= pMin <= pMax <= |s.right|
    requires var rs := LeafRange(s, pMin, pMax); ExactAt(rs, Pick(rs), at)
    requires i < j < |Pick(LeafRange(s, pMin, pMax))|
    ensures var list := Pick(LeafRange(s, pMin, pMax));
            && list[i].LeafRecord? && list[j].LeafRecord? && list[i].position < list[j].position
            && Num(list[i].entry.addr) <= Num(list[j].entry.addr)
  {
    var rs := LeafRange(s, pMin, pMax);
    var list := Pick(rs);
    assert list[i] == rs[at[i]] && list[j] == rs[at[j]];
    PositionsAscend(s, pMin + at[i], pMin + at[j]);
  }

  lemma ListedAtPosition(s: State, pMin: int, pMax: int, at: seq<nat>, p: int)
    requires Shape(s) && -|s.left| <= pMin <= p <= pMax <= |s.right|
    requires LeafAt(s, p).isSet && LeafAt(s, p).net != Unspecified
    requires var rs := LeafRange(s, pMin, pMax); ExactAt(rs, Pick(rs), at)
    ensures LeafRecord(p, LeafAt(s, p)) in Pick(LeafRange(s, pMin, pMax))
  {
    var rs := LeafRange(s, pMin, pMax);
    assert rs[p - pMin] == LeafRecord(p, LeafAt(s, p));
    assert p - pMin in at;
    var j :| 0 <= j < |at| && at[j] == p - pMin;
    assert Pick(rs)[j] == rs[at[j]];
  }

  /** A leafset query lists, in ascending address order, each entry with the position the getter returns
      it at: precisely the set entries of the range that have an endpoint. */
  lemma LeafsetQueryAscends(s: State, pMin: int, pMax: int)
    requires Inv(s) && -|s.left| <= pMin <= pMax <= |s.right|
    ensures var list := Pick(LeafRange(s, pMin, pMax));
            && (forall j :: 0 <= j < |list| ==>
                  && list[j].LeafRecord? && pMin <= list[j].position <= pMax
                  && list[j].entry == LeafAt(s, list[j].position)
                  && list[j].entry.isSet && list[j].entry.net != Unspecified)
            && (forall i, j :: 0 <= i < j < |list| ==>
                  list[i].position < list[j].position && Num(list[i].entry.addr) <= Num(list[j].entry.addr))
            && (forall p :: pMin <= p <= pMax && LeafAt(s, p).isSet && LeafAt(s, p).net != Unspecified ==>
                  LeafRecord(p, LeafAt(s, p)) in list)
  {
    var rs := LeafRange(s, pMin, pMax);
    var list := Pick(rs);
    var at := PickIsExact(rs);
    forall i, j | 0 <= i < j < |list|
      ensures list[i].LeafRecord? && list[j].LeafRecord?
      ensures list[i].position < list[j].position && Num(list[i].entry.addr) <= Num(list[j].entry.addr)
    {
      ListedInOrder(s, pMin, pMax, at, i, j);
    }
    forall p | pMin <= p <= pMax && LeafAt(s, p).isSet && LeafAt(s, p).net != Unspecified
      ensures LeafRecord(p, LeafAt(s, p)) in list
    {
      ListedAtPosition(s, pMin, pMax, at, p);
    }
  }

  lemma RankedLeaf(es: seq<Entry>, keys: seq<int>, k: nat, i: nat, right: bool)
    requires Ordered(es, right) && |es| == k && i < k && Keys(es, right) == Take(keys, k)
    ensures es[i].isSet <==> i < |keys|
    ensures i < |keys| ==> Key(es[i], right) == keys[i]
  {
    assert |Keys(es, right)| == SetPrefix(es);
    if i < |keys| {
      LeafKey(es, i, right);
    }
  }

  /** e is the i-th of the keys, counted from 0; unset when there are no more than i. */
  ghost predicate Ranked(e: Entry, keys: seq<int>, i: nat, right: bool) {
    (e.isSet <==> i < |keys|) && (e.isSet ==> Key(e, right) == keys[i])
  }

  lemma PositionsRanked(s: State, above: seq<int>, below: seq<int>, k: nat, p: nat)
    requires Inv(s) && |s.left| == |s.right| == k && 0 < p <= k
    requires Keys(s.right, true) == Take(above, k) && Keys(s.left, false) == Take(below, k)
    ensures Ranked(LeafAt(s, p), above, p - 1, true) && Ranked(LeafAt(s, 0 - p), below, p - 1, false)
  {
    RankedLeaf(s.right, above, k, p - 1, true);
    RankedLeaf(s.left, below, k, p - 1, false);
  }

  /** After adds only, position p > 0 holds the p-th smallest address added above the router, and position
      -p the p-th largest added below it. */
  lemma PositionIsRank(self: Addr, net: NetAddr, k: nat, ops: seq<Op>, ss: seq<State>, s: State, p: nat)
    requires Run(self, net, k, ops, ss) && AddsOnly(ops) && 0 < p <= k && s == ss[|ops|]
    ensures Shape(s) && |s.left| == |s.right| == k
    ensures Ranked(LeafAt(s, p), Sort(AddedKeys(self, ops, true)), p - 1, true)
    ensures Ranked(LeafAt(s, 0 - p), Sort(AddedKeys(self, ops, false)), p - 1, false)
  {
    RunKeepsInv(self, net, k, ops, ss);
    LeafsetsKeepNearest(self, net, k, ops, ss);
    PositionsRanked(s, Sort(AddedKeys(self, ops, true)), Sort(AddedKeys(self, ops, false)), k, p);
  }
}
