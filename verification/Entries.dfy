/** Routing entries and the search for the one closest to a destination. */
module Entries {
  import opened Options
  import opened Address
  import opened RingDistance

  /** A network address, opaque but for whether it names an endpoint that can be serialised. */
  datatype NetAddr = Unspecified | Endpoint(id: nat)

  datatype Entry = Entry(isSet: bool, addr: Addr, net: NetAddr)

  ghost predicate AllOfLength(es: seq<Entry>, n: nat) {
    forall i :: 0 <= i < |es| ==> |es[i].addr| == n
  }

  method CompareEntries(a: Entry, b: Entry) returns (d: int)
    requires |a.addr| == |b.addr|
    ensures d == Cmp(a.addr, b.addr)
  {
    d := Compare(a.addr, b.addr);
  }

  /** Number of set entries before the first unset one. */
  function SetPrefix(es: seq<Entry>): (k: nat)
    ensures k <= |es|
    ensures forall i :: 0 <= i < k ==> es[i].isSet
    ensures k < |es| ==> !es[k].isSet
  {
    if es == [] || !es[0].isSet then 0 else 1 + SetPrefix(es[1..])
  }

  lemma SetPrefixIs(es: seq<Entry>, k: nat)
    requires k <= |es|
    requires forall i :: 0 <= i < k ==> es[i].isSet
    requires k < |es| ==> !es[k].isSet
    ensures SetPrefix(es) == k
  {
  }

  method ArrayLen(arr: array<Entry>) returns (ret: nat)
    ensures ret == SetPrefix(arr[..])
  {
    ret := 0;
    while ret < arr.Length && arr[ret].isSet
      invariant 0 <= ret <= arr.Length
      invariant forall i :: 0 <= i < ret ==> arr[i].isSet
    {
      ret := ret + 1;
    }
    SetPrefixIs(arr[..], ret);
  }

  //// The first of the smallest non-negative scores

  ghost predicate FirstMinimum(scores: seq<int>, i: int) {
    && 0 <= i < |scores| && 0 <= scores[i]
    && forall j :: 0 <= j < |scores| && 0 <= scores[j] ==>
         scores[i] <= scores[j] && (j < i ==> scores[i] < scores[j])
  }

  /** Position of the first minimum among the non-negative scores, -1 when there is none. */
  function MinIndex(scores: seq<int>): (i: int)
    ensures i == -1 <==> forall j :: 0 <= j < |scores| ==> scores[j] < 0
    ensures i != -1 ==> FirstMinimum(scores, i)
  {
    if scores == [] then -1
    else
      var m := |scores| - 1;
      var p := MinIndex(scores[..m]);
      assert forall j :: 0 <= j < m ==> scores[..m][j] == scores[j];
      if 0 <= scores[m] && (p == -1 || scores[m] < scores[p]) then m else p
  }

  lemma FirstMinimumUnique(scores: seq<int>, i: int)
    requires FirstMinimum(scores, i)
    ensures MinIndex(scores) == i
  {
    assert 0 <= scores[MinIndex(scores)] && 0 <= scores[i];
  }

  lemma MinOfConcat(xs: seq<int>, ys: seq<int>)
    ensures var i, j := MinIndex(xs), MinIndex(ys);
            MinIndex(xs + ys) == if j == -1 || (i != -1 && xs[i] <= ys[j]) then i else |xs| + j
  {
    var i, j, all := MinIndex(xs), MinIndex(ys), xs + ys;
    assert forall m :: 0 <= m < |ys| ==> all[|xs| + m] == ys[m];
    if j == -1 || (i != -1 && xs[i] <= ys[j]) {
      if i != -1 {
        assert FirstMinimum(all, i);
        FirstMinimumUnique(all, i);
      }
    } else {
      assert FirstMinimum(all, |xs| + j);
      FirstMinimumUnique(all, |xs| + j);
    }
  }

  //// The closest candidate

  /** A candidate counts when set and, given a reference address, sharing enough nibbles with it. */
  predicate Eligible(e: Entry, ref: Option<Addr>, minLevel: nat)
    requires ref.Some? ==> |ref.value| == |e.addr|
  {
    e.isSet && (ref.Some? ==> Level(ref.value, e.addr) >= minLevel)
  }

  ghost predicate Comparable(dst: Addr, cs: seq<Entry>, ref: Option<Addr>) {
    dst != [] && AllOfLength(cs, |dst|) && (ref.Some? ==> |ref.value| == |dst|)
  }

  /** The distance of an eligible candidate to dst, -1 for the others. */
  function Score(dst: Addr, e: Entry, ref: Option<Addr>, minLevel: nat): (d: int)
    requires |dst| == |e.addr| > 0 && (ref.Some? ==> |ref.value| == |dst|)
    ensures d >= 0 <==> Eligible(e, ref, minLevel)
  {
    if Eligible(e, ref, minLevel) then DistNum(e.addr, dst) else -1
  }

  function Scores(dst: Addr, cs: seq<Entry>, ref: Option<Addr>, minLevel: nat): (d: seq<int>)
    requires Comparable(dst, cs, ref)
    ensures |d| == |cs|
  {
    seq(|cs|, i requires 0 <= i < |cs| => Score(dst, cs[i], ref, minLevel))
  }

  function Chosen(cs: seq<Entry>, scores: seq<int>, prior: Entry): Entry
    requires |cs| == |scores|
  {
    var i := MinIndex(scores);
    if i != -1 then cs[i] else prior.(isSet := false)
  }

  lemma ChosenOfConcat(xs: seq<Entry>, ys: seq<Entry>, sx: seq<int>, sy: seq<int>, prior: Entry)
    requires |xs| == |sx| && |ys| == |sy|
    ensures var i, j := MinIndex(sx), MinIndex(sy);
            Chosen(xs + ys, sx + sy, prior) == if j == -1 || (i != -1 && sx[i] <= sy[j]) then Chosen(xs, sx, prior)
                                               else Chosen(ys, sy, prior)
  {
    MinOfConcat(sx, sy);
  }

  /** The entry written for the caller; when nothing is eligible the slot is only marked unset. */
  function Closest(dst: Addr, cs: seq<Entry>, ref: Option<Addr>, minLevel: nat, prior: Entry): Entry
    requires Comparable(dst, cs, ref)
  {
    Chosen(cs, Scores(dst, cs, ref, minLevel), prior)
  }

  method MeasureCandidate(dst: Addr, e: Entry, ref: Option<Addr>, minLevel: nat) returns (eligible: bool, dist: Addr)
    requires |dst| == |e.addr| > 0 && (ref.Some? ==> |ref.value| == |dst|)
    ensures eligible <==> Score(dst, e, ref, minLevel) >= 0
    ensures eligible ==> |dist| == |dst| && Num(dist) == Score(dst, e, ref, minLevel)
  {
    eligible, dist := e.isSet, [];
    if e.isSet && ref.Some? {
      var level, _ := Index(ref.value, e.addr);
      eligible := level >= minLevel;
    }
    if eligible {
      dist := Distance(e.addr, dst);
    }
  }

  lemma MinIndexStep(scores: seq<int>, i: nat)
    requires i < |scores|
    ensures var p := MinIndex(scores[..i]);
            MinIndex(scores[..i + 1]) == if 0 <= scores[i] && (p == -1 || scores[i] < scores[p]) then i else p
  {
    assert scores[..i + 1][..i] == scores[..i];
  }

  /** Whether a distance measured beats the best one so far. */
  method Closer(dist: Addr, best: int, minDist: Addr) returns (yes: bool)
    requires best != -1 ==> |dist| == |minDist|
    ensures yes <==> best == -1 || Num(dist) < Num(minDist)
  {
    if best == -1 {
      return true;
    }
    var d := Compare(dist, minDist);
    CmpIsNumericOrder(dist, minDist);
    return d < 0;
  }

  method FindClosest(dst: Addr, candidates: seq<Entry>, ref: Option<Addr>, minLevel: nat, prior: Entry)
    returns (closest: Entry)
    requires Comparable(dst, candidates, ref) && candidates != []
    ensures closest == Closest(dst, candidates, ref, minLevel, prior)
  {
    var best := -1;
    var minDist: Addr := [];
    ghost var scores := Scores(dst, candidates, ref, minLevel);
    var i := 0;
    while i < |candidates|
      invariant 0 <= i <= |candidates|
      invariant best == MinIndex(scores[..i]) < i
      invariant best != -1 ==> |minDist| == |dst| && scores[best] == Num(minDist)
    {
      MinIndexStep(scores, i);
      var eligible, tmpDist := MeasureCandidate(dst, candidates[i], ref, minLevel);
      if eligible {
        var closer := Closer(tmpDist, best, minDist);
        if closer {
          best, minDist := i, tmpDist;
        }
      }
      i := i + 1;
    }
    assert scores[..i] == scores;
    if best != -1 {
      closest := candidates[best];
    } else {
      closest := prior.(isSet := false);
    }
  }

  /** cs[i] is eligible, no eligible candidate is closer, and none before it is as close. */
  ghost predicate FirstMinimiser(dst: Addr, cs: seq<Entry>, ref: Option<Addr>, minLevel: nat, i: int)
    requires Comparable(dst, cs, ref)
  {
    && 0 <= i < |cs| && Eligible(cs[i], ref, minLevel)
    && forall j :: 0 <= j < |cs| && Eligible(cs[j], ref, minLevel) ==>
         && DistNum(cs[i].addr, dst) <= DistNum(cs[j].addr, dst)
         && (j < i ==> DistNum(cs[i].addr, dst) < DistNum(cs[j].addr, dst))
  }

  /** What the search promises: the first eligible minimiser, or unset iff nothing is eligible. */
  lemma ClosestIsFirstMinimiser(dst: Addr, cs: seq<Entry>, ref: Option<Addr>, minLevel: nat, prior: Entry)
    requires Comparable(dst, cs, ref)
    ensures var c := Closest(dst, cs, ref, minLevel, prior);
            && (!c.isSet <==> forall j :: 0 <= j < |cs| ==> !Eligible(cs[j], ref, minLevel))
            && (c.isSet ==> exists i :: FirstMinimiser(dst, cs, ref, minLevel, i) && c == cs[i])
  {
    var scores := Scores(dst, cs, ref, minLevel);
    var i := MinIndex(scores);
    forall j | 0 <= j < |cs| ensures scores[j] == Score(dst, cs[j], ref, minLevel) {
    }
    if i != -1 {
      assert FirstMinimiser(dst, cs, ref, minLevel, i);
    }
  }

  lemma ScoresOfConcat(dst: Addr, xs: seq<Entry>, ys: seq<Entry>, ref: Option<Addr>, minLevel: nat)
    requires Comparable(dst, xs, ref) && Comparable(dst, ys, ref)
    ensures Comparable(dst, xs + ys, ref)
    ensures Scores(dst, xs + ys, ref, minLevel) == Scores(dst, xs, ref, minLevel) + Scores(dst, ys, ref, minLevel)
  {
  }

  /** c, unless d alone is set or strictly closer. */
  function Nearer(dst: Addr, c: Entry, d: Entry): Entry
    requires |c.addr| == |d.addr| == |dst| > 0
  {
    if !d.isSet || (c.isSet && DistNum(c.addr, dst) <= DistNum(d.addr, dst)) then c else d
  }

  lemma ClosestScore(dst: Addr, cs: seq<Entry>, ref: Option<Addr>, minLevel: nat, prior: Entry)
    requires Comparable(dst, cs, ref) && |prior.addr| == |dst|
    ensures var i, c := MinIndex(Scores(dst, cs, ref, minLevel)), Closest(dst, cs, ref, minLevel, prior);
            && |c.addr| == |dst| && (c.isSet <==> i != -1)
            && (i != -1 ==> c == cs[i] && Scores(dst, cs, ref, minLevel)[i] == DistNum(c.addr, dst))
  {
  }

  /** Searching a concatenation is searching its halves, the first half winning ties. */
  lemma ClosestOfConcat(dst: Addr, xs: seq<Entry>, ys: seq<Entry>, ref: Option<Addr>, minLevel: nat, prior: Entry)
    requires Comparable(dst, xs, ref) && Comparable(dst, ys, ref) && |prior.addr| == |dst|
    ensures Comparable(dst, xs + ys, ref)
    ensures Closest(dst, xs + ys, ref, minLevel, prior)
            == Nearer(dst, Closest(dst, xs, ref, minLevel, prior), Closest(dst, ys, ref, minLevel, prior))
  {
    ScoresOfConcat(dst, xs, ys, ref, minLevel);
    ChosenOfConcat(xs, ys, Scores(dst, xs, ref, minLevel), Scores(dst, ys, ref, minLevel), prior);
    ClosestScore(dst, xs, ref, minLevel, prior);
    ClosestScore(dst, ys, ref, minLevel, prior);
  }
}
