/** Big-endian positional numerals: the integer an address's digits stand for. */
module Numerals {

  function Pow(b: nat, e: nat): nat {
    if e == 0 then 1 else b * Pow(b, e - 1)
  }

  ghost predicate Digits(b: nat, s: seq<nat>) {
    forall i :: 0 <= i < |s| ==> s[i] < b
  }

  /** The value of s read in base b, most significant digit first. */
  function Val(b: nat, s: seq<nat>): nat {
    if s == [] then 0 else s[0] * Pow(b, |s| - 1) + Val(b, s[1..])
  }

  /** Length of the longest common prefix. */
  function Shared(s: seq<nat>, t: seq<nat>): (k: nat)
    requires |s| == |t|
    ensures k <= |s| && s[..k] == t[..k]
    ensures k < |s| ==> s[k] != t[k]
  {
    if s == [] || s[0] != t[0] then 0
    else
      var k := 1 + Shared(s[1..], t[1..]);
      assert forall i :: 1 <= i < k ==> s[i] == s[1..][..k-1][i-1] == t[1..][..k-1][i-1] == t[i];
      k
  }

  /** Whatever agrees up to m and differs at m has exactly m digits in common. */
  lemma SharedIs(s: seq<nat>, t: seq<nat>, m: nat)
    requires |s| == |t| && m <= |s| && s[..m] == t[..m]
    ensures m <= Shared(s, t)
    ensures m < |s| && s[m] != t[m] ==> Shared(s, t) == m
  {
    var k := Shared(s, t);
    forall i | 0 <= i < m ensures s[i] == t[i] {
      assert s[..m][i] == t[..m][i];
    }
    if m < k {
      assert s[..k][m] == t[..k][m];
    }
  }

  lemma PowPositive(b: nat, e: nat)
    requires b > 0
    ensures Pow(b, e) > 0
  {
    if e > 0 {
      PowPositive(b, e - 1);
    }
  }

  lemma Scale(x: int, y: int, p: nat)
    requires x <= y
    ensures x * p <= y * p
  {
  }

  lemma {:induction false} ValBound(b: nat, s: seq<nat>)
    requires b > 0 && Digits(b, s)
    ensures Val(b, s) < Pow(b, |s|)
  {
    if s != [] {
      var p := Pow(b, |s| - 1);
      ValBound(b, s[1..]);
      Scale(s[0] + 1, b, p);
      assert (s[0] + 1) * p == s[0] * p + p;
    }
  }

  /** The first differing digit decides the order of the values. */
  lemma {:induction false} FirstDifferenceOrders(b: nat, s: seq<nat>, t: seq<nat>)
    requires b > 0 && |s| == |t| && Digits(b, s) && Digits(b, t)
    ensures Shared(s, t) == |s| <==> s == t
    ensures Val(b, s) == Val(b, t) <==> s == t
    ensures Shared(s, t) < |s| ==> var k := Shared(s, t);
              Val(b, s) < Val(b, t) <==> s[k] < t[k]
  {
    if s != [] {
      if s[0] == t[0] {
        FirstDifferenceOrders(b, s[1..], t[1..]);
        assert s == [s[0]] + s[1..] && t == [t[0]] + t[1..];
      } else if s[0] < t[0] {
        HeadOrders(b, s, t);
      } else {
        HeadOrders(b, t, s);
      }
    }
  }

  lemma HeadOrders(b: nat, s: seq<nat>, t: seq<nat>)
    requires b > 0 && |s| == |t| > 0 && Digits(b, s) && Digits(b, t)
    requires s[0] < t[0]
    ensures Val(b, s) < Val(b, t)
  {
    var p := Pow(b, |s| - 1);
    ValBound(b, s[1..]);
    Scale(s[0] + 1, t[0], p);
    assert (s[0] + 1) * p == s[0] * p + p;
  }
}
