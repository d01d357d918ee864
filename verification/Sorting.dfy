/** Ascending integer sequences: insertion, uniqueness and the k smallest. */
module Sorting {

  ghost predicate Ascending(s: seq<int>) {
    forall i, j :: 0 <= i < j < |s| ==> s[i] <= s[j]
  }

  lemma AscendingPrefix(s: seq<int>, m: nat)
    requires Ascending(s) && m <= |s|
    ensures Ascending(s[..m])
  {
  }

  function Insert(s: seq<int>, x: int): (r: seq<int>)
    ensures |r| == |s| + 1
  {
    if s == [] || x <= s[0] then [x] + s else [s[0]] + Insert(s[1..], x)
  }

  lemma {:induction false} InsertContents(s: seq<int>, x: int)
    ensures multiset(Insert(s, x)) == multiset(s) + multiset{x}
  {
    if s != [] && x > s[0] {
      InsertContents(s[1..], x);
      assert s == [s[0]] + s[1..];
    }
  }

  lemma {:induction false} InsertBound(s: seq<int>, x: int, low: int)
    requires low <= x && forall i :: 0 <= i < |s| ==> low <= s[i]
    ensures forall i :: 0 <= i <= |s| ==> low <= Insert(s, x)[i]
  {
    if s != [] && x > s[0] {
      InsertBound(s[1..], x, low);
    }
  }

  lemma {:induction false} InsertAscends(s: seq<int>, x: int)
    requires Ascending(s)
    ensures Ascending(Insert(s, x))
  {
    if s != [] && x > s[0] {
      InsertAscends(s[1..], x);
      InsertBound(s[1..], x, s[0]);
    }
  }

  /** The ascending arrangement of s. */
  function Sort(s: seq<int>): (r: seq<int>)
    ensures multiset(r) == multiset(s) && Ascending(r) && |r| == |s|
  {
    if s == [] then []
    else
      var m := |s| - 1;
      assert s == s[..m] + [s[m]];
      InsertContents(Sort(s[..m]), s[m]);
      InsertAscends(Sort(s[..m]), s[m]);
      Insert(Sort(s[..m]), s[m])
  }

  function Take(s: seq<int>, k: nat): (r: seq<int>)
    ensures r <= s && |r| == if |s| <= k then |s| else k
  {
    if |s| <= k then s else s[..k]
  }

  lemma SameHead(s: seq<int>, t: seq<int>)
    requires Ascending(s) && Ascending(t) && multiset(s) == multiset(t) && s != []
    ensures t != [] && s[0] == t[0]
  {
    assert s[0] in multiset(t);
    assert s[0] in t;
    assert t[0] in multiset(s);
    assert t[0] in s;
  }

  lemma SameTail(s: seq<int>, t: seq<int>)
    requires s != [] && t != [] && s[0] == t[0] && multiset(s) == multiset(t)
    ensures multiset(s[1..]) == multiset(t[1..])
  {
    assert s == [s[0]] + s[1..] && t == [t[0]] + t[1..];
    assert multiset(s[1..]) == multiset(s) - multiset{s[0]};
    assert multiset(t[1..]) == multiset(t) - multiset{t[0]};
  }

  /** Only one ascending sequence has given contents. */
  lemma {:induction false} AscendingUnique(s: seq<int>, t: seq<int>)
    requires Ascending(s) && Ascending(t) && multiset(s) == multiset(t)
    ensures s == t
  {
    if s == [] {
      assert |multiset(t)| == 0;
    } else {
      SameHead(s, t);
      SameTail(s, t);
      AscendingUnique(s[1..], t[1..]);
      assert s == [s[0]] + s[1..] && t == [t[0]] + t[1..];
    }
  }

  /** Sorting x appended to an ascending sequence is inserting it. */
  lemma InsertIs(s: seq<int>, x: int, placed: seq<int>, r: seq<int>)
    requires Ascending(s) && Ascending(r) && placed == s + [x] && multiset(r) == multiset(placed)
    ensures r == Insert(s, x)
  {
    InsertContents(s, x);
    InsertAscends(s, x);
    AscendingUnique(r, Insert(s, x));
  }

  /** An element at or past the last leaves the first |s| alone. */
  lemma {:induction false} InsertPastEnd(s: seq<int>, x: int)
    requires Ascending(s) && s != [] && s[|s| - 1] <= x
    ensures Insert(s, x)[..|s|] == s
  {
    if x <= s[0] {
      assert forall i :: 0 <= i < |s| ==> s[i] == x;
    } else if |s| > 1 {
      InsertPastEnd(s[1..], x);
      assert s == [s[0]] + s[1..];
    }
  }

  /** An element at or before the last pushes the last one out of the first |s|. */
  lemma {:induction false} InsertPushesLast(s: seq<int>, x: int)
    requires Ascending(s) && s != [] && x <= s[|s| - 1]
    ensures Insert(s, x)[..|s|] == Insert(s[..|s| - 1], x)
  {
    var n := |s|;
    if x <= s[0] {
      assert ([x] + s)[..n] == [x] + s[..n - 1];
    } else {
      InsertPushesLast(s[1..], x);
      assert s[1..][..n - 2] == s[..n - 1][1..];
      assert Insert(s, x)[..n] == [s[0]] + Insert(s[1..], x)[..n - 1];
    }
  }

  /** x appended to the k elements held, or put in the last one's place when n are held already, and
      the whole sorted: the n smallest. */
  lemma PlacedSorted(s: seq<int>, n: nat, x: int, placed: seq<int>, r: seq<int>)
    requires Ascending(s) && Ascending(r) && |s| <= n && n > 0 && multiset(r) == multiset(placed)
    requires placed == s[..if |s| < n then |s| else n - 1] + [x]
    requires |s| == n ==> x <= s[n - 1]
    ensures r == Take(Insert(s, x), n)
  {
    if |s| < n {
      assert s[..|s|] == s;
      InsertIs(s, x, placed, r);
    } else {
      AscendingPrefix(s, n - 1);
      InsertIs(s[..n - 1], x, placed, r);
      InsertPushesLast(s, x);
    }
  }

  /** The k smallest can be kept incrementally. */
  lemma {:induction false} TakeInsert(s: seq<int>, x: int, k: nat)
    requires Ascending(s)
    ensures Take(Insert(s, x), k) == Take(Insert(Take(s, k), x), k)
  {
    if k > 0 && |s| > k && !(x <= s[0]) {
      TakeInsert(s[1..], x, k - 1);
      assert s[..k][1..] == s[1..][..k - 1];
      assert Insert(s, x)[..k] == [s[0]] + Insert(s[1..], x)[..k - 1];
      assert Insert(s[..k], x)[..k] == [s[0]] + Insert(s[..k][1..], x)[..k - 1];
    }
  }

  /** What is not among the k smallest is at least as large as all of them. */
  lemma LeftOut(s: seq<int>, k: nat, x: int)
    requires x in s
    ensures x in Take(Sort(s), k) || (|Take(Sort(s), k)| == k && forall y :: y in Take(Sort(s), k) ==> y <= x)
  {
    assert x in multiset(s);
    assert x in Sort(s);
    var i :| 0 <= i < |s| && Sort(s)[i] == x;
    if i >= k {
      assert forall j :: 0 <= j < k ==> Sort(s)[j] <= x;
    }
  }
}
