/** A leafset: a bounded array of entries kept sorted away from the router's own address. */
module Leafsets {
  import opened Address
  import opened Entries
  import opened Sorting

  /** Sorting key: right leafsets ascend, left ones descend. */
  function KeyOfAddr(addr: Addr, right: bool): int {
    if right then Num(addr) else 0 - Num(addr) as int
  }

  function Key(e: Entry, right: bool): int {
    KeyOfAddr(e.addr, right)
  }

  function KeysOf(es: seq<Entry>, right: bool): (k: seq<int>)
    ensures |k| == |es|
  {
    seq(|es|, i requires 0 <= i < |es| => Key(es[i], right))
  }

  /** Keys of the leaves actually held, nearest first when sorted. */
  function Keys(es: seq<Entry>, right: bool): (k: seq<int>)
    ensures |k| == SetPrefix(es)
  {
    KeysOf(es[..SetPrefix(es)], right)
  }

  /** Set entries form a prefix, and their keys ascend. */
  ghost predicate Ordered(es: seq<Entry>, right: bool) {
    && (forall i :: SetPrefix(es) <= i < |es| ==> !es[i].isSet)
    && Ascending(Keys(es, right))
  }

  lemma SetLeavesAreListed(es: seq<Entry>, right: bool)
    requires Ordered(es, right)
    ensures forall e :: e in es && e.isSet ==> exists i :: 0 <= i < SetPrefix(es) && es[i] == e
  {
  }

  //// Sorting in place

  /** The sort's contract: the set prefix is permuted into order, the rest stays. Entries with
      equal keys may come out in any order. */
  ghost predicate SortedFrom(before: seq<Entry>, after: seq<Entry>, right: bool) {
    var m := SetPrefix(before);
    && |after| == |before|
    && multiset(after[..m]) == multiset(before[..m])
    && after[m..] == before[m..]
    && Ascending(KeysOf(after[..m], right))
  }

  method KeyOrder(x: Entry, y: Entry, right: bool) returns (d: int)
    requires |x.addr| == |y.addr|
    ensures d < 0 <==> Key(x, right) < Key(y, right)
  {
    CmpIsNumericOrder(x.addr, y.addr);
    if right {
      d := CompareEntries(x, y);
    } else {
      d := CompareEntries(y, x);
    }
  }

  method Swap(a: array<Entry>, j: nat)
    requires 0 < j < a.Length
    modifies a
    ensures a[..] == old(a[..])[j := old(a[j - 1])][j - 1 := old(a[j])]
  {
    a[j], a[j - 1] := a[j - 1], a[j];
  }

  lemma SwapPermutes(s: seq<Entry>, t: seq<Entry>, m: nat, j: nat)
    requires 0 < j < m <= |s| && t == s[j := s[j - 1]][j - 1 := s[j]]
    ensures multiset(t[..m]) == multiset(s[..m]) && t[m..] == s[m..]
  {
    assert t[..m] == s[..m][j := s[..m][j - 1]][j - 1 := s[..m][j]];
  }

  /** Ascending up to i, apart from position j. */
  ghost predicate AscendingBut(k: seq<int>, i: nat, j: nat) {
    forall p, q :: 0 <= p < q <= i && q < |k| && q != j ==> k[p] <= k[q]
  }

  /** k[j] is still sinking: it is no larger than what it has passed. */
  ghost predicate Sinking(k: seq<int>, i: nat, j: nat) {
    j <= i < |k| && AscendingBut(k, i, j) && forall q :: j < q <= i ==> k[j] <= k[q]
  }

  lemma SinkStep(k: seq<int>, i: nat, j: nat)
    requires Sinking(k, i, j) && 0 < j && k[j] < k[j - 1]
    ensures Sinking(k[j := k[j - 1]][j - 1 := k[j]], i, j - 1)
  {
  }

  lemma SinkDone(k: seq<int>, i: nat, j: nat)
    requires Sinking(k, i, j) && (j == 0 || k[j - 1] <= k[j])
    ensures AscendingBut(k, i, i + 1)
  {
    forall p | 0 <= p < j ensures k[p] <= k[j] {
      assert p < j - 1 ==> k[p] <= k[j - 1];
    }
  }

  lemma KeysOfSwap(s: seq<Entry>, t: seq<Entry>, j: nat, n: nat, right: bool)
    requires 0 < j < |s| && t == s[j := s[j - 1]][j - 1 := s[j]] && AllOfLength(s, n)
    ensures var k := KeysOf(s, right); KeysOf(t, right) == k[j := k[j - 1]][j - 1 := k[j]]
    ensures AllOfLength(t, n)
  {
  }

  /** One element sinks to its place among the sorted ones before it. */
  method Sink(a: array<Entry>, i: nat, m: nat, n: nat, right: bool)
    requires i < m <= a.Length && AllOfLength(a[..], n)
    requires AscendingBut(KeysOf(a[..], right), i, i)
    modifies a
    ensures multiset(a[..m]) == multiset(old(a[..m])) && a[m..] == old(a[m..])
    ensures AllOfLength(a[..], n)
    ensures AscendingBut(KeysOf(a[..], right), i, i + 1)
  {
    var j := i;
    ghost var s := a[..];
    while j > 0
      invariant 0 <= j <= i && s == a[..]
      invariant multiset(s[..m]) == multiset(old(a[..m])) && s[m..] == old(a[m..])
      invariant AllOfLength(s, n)
      invariant Sinking(KeysOf(s, right), i, j)
    {
      var d := KeyOrder(a[j], a[j - 1], right);
      assert s[j] == a[j] && s[j - 1] == a[j - 1];
      assert KeysOf(s, right)[j] == Key(s[j], right) && KeysOf(s, right)[j - 1] == Key(s[j - 1], right);
      if d >= 0 {
        break;
      }
      Swap(a, j);
      SwapPermutes(s, a[..], m, j);
      KeysOfSwap(s, a[..], j, n, right);
      SinkStep(KeysOf(s, right), i, j);
      s := a[..];
      j := j - 1;
    }
    SinkDone(KeysOf(s, right), i, j);
    assert s[..m] == a[..m] && s[m..] == a[m..];
  }

  method SortLeafset(a: array<Entry>, right: bool, n: nat)
    requires AllOfLength(a[..], n)
    modifies a
    ensures SortedFrom(old(a[..]), a[..], right) && AllOfLength(a[..], n)
  {
    var m := ArrayLen(a);
    var i := 0;
    while i < m
      invariant 0 <= i <= m <= a.Length && AllOfLength(a[..], n)
      invariant multiset(a[..m]) == multiset(old(a[..m])) && a[m..] == old(a[m..])
      invariant AscendingBut(KeysOf(a[..], right), i, i)
    {
      Sink(a, i, m, n, right);
      i := i + 1;
    }
    assert KeysOf(a[..], right)[..m] == KeysOf(a[..m], right);
    assert a[..][..m] == a[..m] && a[..][m..] == a[m..];
    assert old(a[..])[..m] == old(a[..m]) && old(a[..])[m..] == old(a[m..]);
  }

  //// Insertion

  /** When full, an entry beyond the farthest leaf is not wanted. */
  predicate Refused(es: seq<Entry>, e: Entry, right: bool)
    requires es != [] && |e.addr| == |es[|es| - 1].addr|
  {
    SetPrefix(es) == |es| && (Cmp(e.addr, es[|es| - 1].addr) < 0) != right
  }

  function Placed(es: seq<Entry>, e: Entry): seq<Entry>
    requires es != []
  {
    var k := SetPrefix(es);
    if k < |es| then es[k := e] else es[|es| - 1 := e]
  }

  ghost predicate InsertStep(es: seq<Entry>, es': seq<Entry>, e: Entry, right: bool)
    requires es != [] && AllOfLength(es, |e.addr|)
  {
    if Refused(es, e, right) then es' == es else SortedFrom(Placed(es, e), es', right)
  }

  method InsertLeaf(leafset: array<Entry>, e: Entry, right: bool)
    requires leafset.Length > 0 && AllOfLength(leafset[..], |e.addr|)
    modifies leafset
    ensures InsertStep(old(leafset[..]), leafset[..], e, right)
    ensures AllOfLength(leafset[..], |e.addr|)
  {
    var last := leafset.Length - 1;
    var ls := ArrayLen(leafset);
    assert leafset[..][last] == leafset[last];
    if ls < leafset.Length {
      leafset[ls] := e;
    } else {
      var d := Compare(e.addr, leafset[last].addr);
      if (d < 0) != right {
        return;
      }
      leafset[last] := e;
    }
    assert leafset[..] == Placed(old(leafset[..]), e);
    SortLeafset(leafset, right, |e.addr|);
  }

  //// Extraction

  /** Position of the first entry with this address, |es| when there is none. */
  function FirstAt(es: seq<Entry>, addr: Addr): (i: nat)
    ensures i <= |es| && (i < |es| ==> es[i].addr == addr)
    ensures forall j :: 0 <= j < i ==> es[j].addr != addr
  {
    if es == [] || es[0].addr == addr then 0 else 1 + FirstAt(es[1..], addr)
  }

  /** The last leaf moves over position i and its old slot is marked unset. */
  function Dropped(es: seq<Entry>, i: nat): seq<Entry>
    requires i < SetPrefix(es)
  {
    var m := SetPrefix(es);
    es[i := es[m - 1]][m - 1 := es[m - 1].(isSet := false)]
  }

  ghost predicate ExtractStep(es: seq<Entry>, es': seq<Entry>, addr: Addr, right: bool) {
    var m := SetPrefix(es);
    var i := FirstAt(es[..m], addr);
    if i == m then es' == es else SortedFrom(Dropped(es, i), es', right)
  }

  method ExtractLeaf(leafset: array<Entry>, e: Entry, right: bool)
    requires AllOfLength(leafset[..], |e.addr|)
    modifies leafset
    ensures ExtractStep(old(leafset[..]), leafset[..], e.addr, right)
    ensures AllOfLength(leafset[..], |e.addr|)
  {
    ghost var es := leafset[..];
    var ls := ArrayLen(leafset);
    var i := 0;
    while i < ls
      invariant 0 <= i <= ls && leafset[..] == es
      invariant forall j :: 0 <= j < i ==> es[j].addr != e.addr
    {
      assert leafset[i] == es[i] == es[..ls][i];
      var d := CompareEntries(e, leafset[i]);
      CmpIsNumericOrder(e.addr, es[i].addr);
      if d == 0 {
        leafset[i] := leafset[ls - 1];
        leafset[ls - 1] := leafset[ls - 1].(isSet := false);
        assert FirstAt(es[..ls], e.addr) == i;
        assert leafset[..] == Dropped(es, i);
        SortLeafset(leafset, right, |e.addr|);
        return;
      }
      i := i + 1;
    }
  }

  //// What the steps do to the keys

  lemma TakeOut<T>(s: seq<T>, i: nat)
    requires i < |s|
    ensures multiset(s) == multiset(s[..i] + s[i + 1..]) + multiset{s[i]}
  {
    assert s == s[..i] + [s[i]] + s[i + 1..];
  }

  lemma KeysOfSplit(ys: seq<Entry>, i: nat, right: bool)
    requires i < |ys|
    ensures multiset(KeysOf(ys, right)) == multiset(KeysOf(ys[..i] + ys[i + 1..], right)) + multiset{Key(ys[i], right)}
  {
    var k := KeysOf(ys, right);
    TakeOut(k, i);
    assert KeysOf(ys[..i] + ys[i + 1..], right) == k[..i] + k[i + 1..];
  }

  lemma KeysOfFirst(xs: seq<Entry>, right: bool)
    requires xs != []
    ensures multiset(KeysOf(xs, right)) == multiset(KeysOf(xs[1..], right)) + multiset{Key(xs[0], right)}
  {
    assert KeysOf(xs, right) == [Key(xs[0], right)] + KeysOf(xs[1..], right);
  }

  lemma RestsMatch<T>(xs: seq<T>, ys: seq<T>, i: nat)
    requires xs != [] && i < |ys| && ys[i] == xs[0] && multiset(xs) == multiset(ys)
    ensures multiset(xs[1..]) == multiset(ys[..i] + ys[i + 1..])
  {
    TakeOut(ys, i);
    assert xs == [xs[0]] + xs[1..];
    assert multiset(xs[1..]) == multiset(xs) - multiset{xs[0]};
  }

  lemma {:induction false} KeysFollowEntries(xs: seq<Entry>, ys: seq<Entry>, right: bool)
    requires multiset(xs) == multiset(ys)
    ensures multiset(KeysOf(xs, right)) == multiset(KeysOf(ys, right))
  {
    if xs == [] {
      assert |multiset(ys)| == 0;
    } else {
      assert xs[0] in multiset(ys);
      var i :| 0 <= i < |ys| && ys[i] == xs[0];
      RestsMatch(xs, ys, i);
      KeysFollowEntries(xs[1..], ys[..i] + ys[i + 1..], right);
      KeysOfSplit(ys, i, right);
      KeysOfFirst(xs, right);
    }
  }

  lemma SortedFromKeeps(before: seq<Entry>, after: seq<Entry>, right: bool, n: nat)
    requires SortedFrom(before, after, right) && AllOfLength(before, n)
    requires forall i :: SetPrefix(before) <= i < |before| ==> !before[i].isSet
    ensures AllOfLength(after, n) && Ordered(after, right)
    ensures multiset(Keys(after, right)) == multiset(Keys(before, right))
    ensures forall x :: x in after ==> x in before
  {
    var m := SetPrefix(before);
    forall i | 0 <= i < |after| ensures after[i] in before && (after[i].isSet <==> i < m) {
      if i < m {
        assert after[..m][i] in multiset(before[..m]);
        var j :| 0 <= j < m && before[..m][j] == after[i];
      } else {
        assert after[m..][i - m] == before[m..][i - m];
      }
    }
    SetPrefixIs(after, m);
    KeysFollowEntries(after[..m], before[..m], right);
  }

  lemma PlacedKeys(es: seq<Entry>, e: Entry, right: bool)
    requires es != [] && e.isSet && AllOfLength(es, |e.addr|) && Ordered(es, right)
    ensures var p, k := Placed(es, e), SetPrefix(es);
            var held := if k < |es| then k else k - 1;
            && |p| == |es| && SetPrefix(p) == held + 1 && AllOfLength(p, |e.addr|)
            && (forall j :: held < j < |p| ==> !p[j].isSet)
            && Keys(p, right) == Keys(es, right)[..held] + [Key(e, right)]
            && forall x :: x in p ==> x in es || x == e
  {
    var p, k := Placed(es, e), SetPrefix(es);
    var held := if k < |es| then k else k - 1;
    SetPrefixIs(p, held + 1);
    assert p[..held] == es[..held];
    assert p[..held + 1] == es[..held] + [e];
  }

  /** A full leafset refuses what is past its farthest leaf, and on the right side that leaf's own address. */
  lemma RefusedIff(es: seq<Entry>, e: Entry, right: bool)
    requires es != [] && AllOfLength(es, |e.addr|)
    ensures var keys, last := Keys(es, right), |es| - 1;
            Refused(es, e, right)
            <==> |keys| == |es| && (keys[last] < Key(e, right) || (right && keys[last] == Key(e, right)))
  {
    CmpIsNumericOrder(e.addr, es[|es| - 1].addr);
    if SetPrefix(es) == |es| {
      assert Keys(es, right)[|es| - 1] == Key(es[|es| - 1], right);
    }
  }

  lemma PlacedEntriesKept(es: seq<Entry>, es': seq<Entry>, e: Entry, right: bool)
    requires es != [] && e.isSet && AllOfLength(es, |e.addr|) && Ordered(es, right)
    requires SortedFrom(Placed(es, e), es', right)
    ensures |es'| == |es| && AllOfLength(es', |e.addr|) && Ordered(es', right)
    ensures forall x :: x in es' ==> x in es || x == e
    ensures multiset(Keys(es', right)) == multiset(Keys(Placed(es, e), right))
  {
    PlacedKeys(es, e, right);
    SortedFromKeeps(Placed(es, e), es', right, |e.addr|);
  }

  lemma PlacedKeysAre(es: seq<Entry>, e: Entry, right: bool)
    requires es != [] && e.isSet && AllOfLength(es, |e.addr|) && Ordered(es, right)
    ensures var k := SetPrefix(es);
            Keys(Placed(es, e), right) == Keys(es, right)[..if k < |es| then k else k - 1] + [Key(e, right)]
  {
    PlacedKeys(es, e, right);
  }

  /** Inserting keeps the |es| nearest of the leaves held and the new entry. */
  lemma InsertKeepsNearest(es: seq<Entry>, es': seq<Entry>, e: Entry, right: bool)
    requires es != [] && e.isSet && AllOfLength(es, |e.addr|)
    requires Ordered(es, right) && InsertStep(es, es', e, right)
    ensures |es'| == |es| && AllOfLength(es', |e.addr|) && Ordered(es', right)
    ensures Keys(es', right) == Take(Insert(Keys(es, right), Key(e, right)), |es|)
    ensures forall x :: x in es' ==> x in es || x == e
  {
    var keys, x := Keys(es, right), Key(e, right);
    RefusedIff(es, e, right);
    if Refused(es, e, right) {
      InsertPastEnd(keys, x);
    } else {
      PlacedEntriesKept(es, es', e, right);
      PlacedKeysAre(es, e, right);
      PlacedSorted(keys, |es|, x, Keys(Placed(es, e), right), Keys(es', right));
    }
  }

  lemma FullPlaced(es: seq<Entry>, e: Entry)
    requires es != [] && e.isSet && SetPrefix(es) == |es|
    ensures Placed(es, e) == es[..|es| - 1] + [e] && SetPrefix(Placed(es, e)) == |es|
  {
    SetPrefixIs(Placed(es, e), |es|);
  }

  lemma WholeSorted(before: seq<Entry>, after: seq<Entry>, right: bool)
    requires SortedFrom(before, after, right) && SetPrefix(before) == |before|
    ensures |after| == |before| && multiset(after) == multiset(before)
  {
    assert after[..|before|] == after && before[..|before|] == before;
  }

  /** Adding the farthest leaf of a full leafset again, at another network address: the right side keeps
      the old entry, the left side takes the new one in its place. */
  lemma FarthestReadded(es: seq<Entry>, es': seq<Entry>, e: Entry, right: bool)
    requires es != [] && e.isSet && AllOfLength(es, |e.addr|) && InsertStep(es, es', e, right)
    requires SetPrefix(es) == |es| && e.addr == es[|es| - 1].addr
    ensures right ==> es' == es
    ensures !right ==> |es'| == |es| && multiset(es') == multiset(es[..|es| - 1]) + multiset{e}
  {
    RefusedIff(es, e, right);
    if !right {
      FullPlaced(es, e);
      WholeSorted(Placed(es, e), es', right);
    }
  }

  lemma MultisetDrop(s: seq<int>, t: seq<int>, i: nat)
    requires i < |s| && |t| == |s| - 1
    requires t == s[i := s[|s| - 1]][..|s| - 1]
    ensures multiset(t) == multiset(s) - multiset{s[i]}
  {
    var m := |s| - 1;
    assert s == s[..m] + [s[m]];
    if i < m {
      assert t == s[..m][i := s[m]];
    } else {
      assert t == s[..m];
    }
  }

  lemma DroppedEntries(es: seq<Entry>, i: nat, right: bool, n: nat)
    requires i < SetPrefix(es) && AllOfLength(es, n) && Ordered(es, right)
    ensures var p := Dropped(es, i);
            && SetPrefix(p) == SetPrefix(es) - 1 && AllOfLength(p, n)
            && (forall j :: SetPrefix(p) <= j < |p| ==> !p[j].isSet)
            && forall e :: e in p ==> e in es || (!e.isSet && e.(isSet := true) in es)
  {
    var m, p := SetPrefix(es), Dropped(es, i);
    SetPrefixIs(p, m - 1);
    assert es[m - 1].(isSet := false).(isSet := true) == es[m - 1];
  }

  lemma DroppedKeys(es: seq<Entry>, i: nat, right: bool)
    requires i < SetPrefix(es) && SetPrefix(Dropped(es, i)) == SetPrefix(es) - 1
    ensures multiset(Keys(Dropped(es, i), right)) == multiset(Keys(es, right)) - multiset{Key(es[i], right)}
  {
    var m, keys, p := SetPrefix(es), Keys(es, right), Keys(Dropped(es, i), right);
    forall j | 0 <= j < m - 1 ensures p[j] == keys[i := keys[m - 1]][j] {
    }
    assert p == keys[i := keys[m - 1]][..m - 1];
    MultisetDrop(keys, p, i);
  }

  lemma AbsentKey(es: seq<Entry>, addr: Addr, right: bool)
    requires AllOfLength(es, |addr|) && FirstAt(es[..SetPrefix(es)], addr) == SetPrefix(es)
    ensures KeyOfAddr(addr, right) !in Keys(es, right)
  {
    var m, keys := SetPrefix(es), Keys(es, right);
    forall j | 0 <= j < m ensures keys[j] != KeyOfAddr(addr, right) {
      assert es[..m][j].addr != addr;
      NumInjective(es[j].addr, addr);
    }
  }

  /** Extracting removes exactly one copy of the address, or nothing when it is not held. */
  lemma ExtractRemovesOne(es: seq<Entry>, es': seq<Entry>, addr: Addr, right: bool)
    requires AllOfLength(es, |addr|) && Ordered(es, right) && ExtractStep(es, es', addr, right)
    ensures |es'| == |es| && AllOfLength(es', |addr|) && Ordered(es', right)
    ensures multiset(Keys(es', right)) == multiset(Keys(es, right)) - multiset{KeyOfAddr(addr, right)}
    ensures es' == es <==> KeyOfAddr(addr, right) !in Keys(es, right)
    ensures forall e :: e in es' ==> e in es || (!e.isSet && e.(isSet := true) in es)
  {
    var m, keys, x := SetPrefix(es), Keys(es, right), KeyOfAddr(addr, right);
    var i := FirstAt(es[..m], addr);
    if i == m {
      AbsentKey(es, addr, right);
      assert x !in multiset(keys);
    } else {
      assert keys[i] == x && x in multiset(keys);
      DroppedEntries(es, i, right, |addr|);
      DroppedKeys(es, i, right);
      SortedFromKeeps(Dropped(es, i), es', right, |addr|);
    }
  }
}
