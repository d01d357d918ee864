/** The growable vector: doubling growth, swap-remove, halving shrink. */
module Vectors {
  import opened Options

  const DEFAULT_CAPACITY: nat := 8

  /** s without position at, the last element taking its place. */
  function SwapRemoved<T>(s: seq<T>, at: nat): (r: seq<T>)
    requires at < |s|
    ensures |r| == |s| - 1
  {
    s[at := s[|s| - 1]][..|s| - 1]
  }

  /** Capacity after a push onto size elements. */
  function GrownCapacity(size: nat, capacity: nat): nat {
    if size < capacity then capacity else if capacity == 0 then 1 else 2 * capacity
  }

  /** Capacity after a removal that leaves size elements. */
  function ShrunkCapacity(size: nat, capacity: nat): nat {
    if capacity / 2 >= DEFAULT_CAPACITY && size <= capacity / 2 then capacity / 2 else capacity
  }

  datatype Call<T> = PushCall(elem: T) | RemoveCall(at: nat)

  /** What the calls leave: contents, capacity, and elements moved. */
  datatype Vector<T> = Vector(contents: seq<T>, capacity: nat, moved: nat)

  function After<T>(v: Vector<T>, call: Call<T>): Vector<T> {
    var n := |v.contents|;
    match call
    case PushCall(elem) =>
      Vector(v.contents + [elem], GrownCapacity(n, v.capacity), v.moved + if n >= v.capacity then n else 0)
    case RemoveCall(at) =>
      if at >= n then v
      else
        var c := ShrunkCapacity(n - 1, v.capacity);
        Vector(SwapRemoved(v.contents, at), c, v.moved + if c != v.capacity then n - 1 else 0)
  }

  function AfterAll<T>(v: Vector<T>, calls: seq<Call<T>>): Vector<T> {
    if calls == [] then v else After(AfterAll(v, calls[..|calls| - 1]), calls[|calls| - 1])
  }

  class Vec<T(0)> {
    var size: nat
    var capacity: nat
    var buf: array<T>
    /** Elements carried over by reallocations so far. */
    ghost var moved: nat

    ghost predicate Valid()
      reads this
    {
      buf.Length == capacity && size <= capacity
    }

    ghost function Contents(): (s: seq<T>)
      requires Valid()
      reads this, buf
      ensures |s| == size
    {
      buf[..size]
    }

    ghost function Model(): Vector<T>
      requires Valid()
      reads this, buf
    {
      Vector(Contents(), capacity, moved)
    }

    constructor WithCapacity(initial: nat)
      ensures Valid() && fresh(buf) && Model() == Vector([], initial, 0)
    {
      size, capacity, moved := 0, initial, 0;
      buf := new T[initial];
    }

    constructor ()
      ensures Valid() && fresh(buf) && Model() == Vector([], 8, 0)
    {
      size, capacity, moved := 0, DEFAULT_CAPACITY, 0;
      buf := new T[DEFAULT_CAPACITY];
    }

    method At(at: nat) returns (r: Option<T>)
      requires Valid()
      ensures r == if at < |Contents()| then Some(Contents()[at]) else None
    {
      if at < size {
        r := Some(buf[at]);
      } else {
        r := None;
      }
    }

    /** The allocator moves the surviving elements to a block of the new capacity. */
    method Realloc(newCapacity: nat)
      requires Valid() && size <= newCapacity
      modifies this
      ensures Valid() && fresh(buf) && capacity == newCapacity && size == old(size)
      ensures Contents() == old(Contents()) && moved == old(moved) + size
    {
      var newBuf := new T[newCapacity];
      var i := 0;
      while i < size
        invariant unchanged(this) && unchanged(buf) && fresh(newBuf) && newBuf.Length == newCapacity
        invariant 0 <= i <= size <= newCapacity && size <= buf.Length
        invariant newBuf[..i] == buf[..i]
      {
        newBuf[i] := buf[i];
        i := i + 1;
      }
      buf, capacity, moved := newBuf, newCapacity, moved + size;
    }

    method Push(elem: T)
      requires Valid()
      modifies this, buf
      ensures Valid() && (buf == old(buf) || fresh(buf))
      ensures Model() == After(old(Model()), PushCall(elem))
      ensures Contents() == old(Contents()) + [elem]
      ensures capacity == old(if size < capacity then capacity else if capacity == 0 then 1 else 2 * capacity)
    {
      if size == capacity {
        Realloc(if capacity == 0 then 1 else 2 * capacity);
      }
      buf[size] := elem;
      size := size + 1;
      assert Contents() == old(Contents()) + [elem];
    }

    method RemoveAt(at: nat) returns (r: Option<T>)
      requires Valid()
      modifies this, buf
      ensures Valid() && (buf == old(buf) || fresh(buf))
      ensures r == old(if at < size then Some(Contents()[at]) else None)
      ensures Model() == After(old(Model()), RemoveCall(at))
    {
      if at >= size {
        return None;
      }
      r := Some(buf[at]);
      size := size - 1;
      if size != at {
        buf[at] := buf[size];
      }
      assert Contents() == SwapRemoved(old(Contents()), at);
      if capacity / 2 >= DEFAULT_CAPACITY && size <= capacity / 2 {
        Realloc(capacity / 2);
      }
    }
  }

  //// What a removal leaves

  /** The last element takes the place of the removed one, and every other stays where it is. */
  lemma RemovalKeepsOthers<T>(v: Vector<T>, at: nat)
    requires at < |v.contents|
    ensures var n, left := |v.contents| - 1, After(v, RemoveCall(at)).contents;
            && |left| == n
            && (forall j :: 0 <= j < n ==> left[j] == if j == at then v.contents[n] else v.contents[j])
            && multiset(left) == multiset(v.contents) - multiset{v.contents[at]}
  {
    var s, n := v.contents, |v.contents| - 1;
    assert s == s[..n] + [s[n]];
    if at < n {
      assert SwapRemoved(s, at) == s[..n][at := s[n]];
      assert s[..n][at] == s[at];
    } else {
      assert SwapRemoved(s, at) == s[..n];
    }
  }

  /** What the calls put in, and what the removals among them handed back. */
  function Pushed<T>(calls: seq<Call<T>>): multiset<T> {
    if calls == [] then multiset{}
    else
      var call := calls[|calls| - 1];
      Pushed(calls[..|calls| - 1]) + if call.PushCall? then multiset{call.elem} else multiset{}
  }

  function Returned<T>(v: Vector<T>, calls: seq<Call<T>>): multiset<T> {
    if calls == [] then multiset{}
    else
      var call, before := calls[|calls| - 1], AfterAll(v, calls[..|calls| - 1]).contents;
      Returned(v, calls[..|calls| - 1]) +
      if call.RemoveCall? && call.at < |before| then multiset{before[call.at]} else multiset{}
  }

  lemma PushConserves<T>(v: Vector<T>, elem: T)
    ensures multiset(After(v, PushCall(elem)).contents) == multiset(v.contents) + multiset{elem}
  {
  }

  lemma OneMoreIn<T>(held: multiset<T>, back: multiset<T>, there: multiset<T>, pushed: multiset<T>, x: T)
    requires held + back == there + pushed
    ensures (held + multiset{x}) + back == there + (pushed + multiset{x})
  {
    assert (held + multiset{x}) + back == (held + back) + multiset{x};
    assert there + (pushed + multiset{x}) == (there + pushed) + multiset{x};
  }

  lemma OneMoreOut<T>(held: multiset<T>, back: multiset<T>, x: T)
    requires x in held
    ensures (held - multiset{x}) + (back + multiset{x}) == held + back
  {
  }

  lemma PushStep<T>(v: Vector<T>, calls: seq<Call<T>>)
    requires calls != [] && calls[|calls| - 1].PushCall?
    ensures var before, x := calls[..|calls| - 1], calls[|calls| - 1].elem;
            && multiset(AfterAll(v, calls).contents) == multiset(AfterAll(v, before).contents) + multiset{x}
            && Returned(v, calls) == Returned(v, before) && Pushed(calls) == Pushed(before) + multiset{x}
  {
    PushConserves(AfterAll(v, calls[..|calls| - 1]), calls[|calls| - 1].elem);
  }

  lemma RemoveStep<T>(v: Vector<T>, calls: seq<Call<T>>)
    requires calls != [] && calls[|calls| - 1].RemoveCall?
    ensures var before, at := calls[..|calls| - 1], calls[|calls| - 1].at;
            var s := AfterAll(v, before).contents;
            && Pushed(calls) == Pushed(before)
            && if at < |s| then s[at] in multiset(s)
                    && multiset(AfterAll(v, calls).contents) == multiset(s) - multiset{s[at]}
                    && Returned(v, calls) == Returned(v, before) + multiset{s[at]}
               else AfterAll(v, calls) == AfterAll(v, before) && Returned(v, calls) == Returned(v, before)
  {
    var before, at := AfterAll(v, calls[..|calls| - 1]), calls[|calls| - 1].at;
    if at < |before.contents| {
      RemovalKeepsOthers(before, at);
    }
  }

  /** Over every run nothing is lost or made up: what is held and what was handed back are, with
      multiplicity, what was there and what was pushed. */
  lemma {:induction false} ContentsConserved<T>(v: Vector<T>, calls: seq<Call<T>>)
    ensures multiset(AfterAll(v, calls).contents) + Returned(v, calls) == multiset(v.contents) + Pushed(calls)
  {
    if calls != [] {
      var before, call := calls[..|calls| - 1], calls[|calls| - 1];
      var s, back := AfterAll(v, before).contents, Returned(v, before);
      ContentsConserved(v, before);
      if call.PushCall? {
        PushStep(v, calls);
        OneMoreIn(multiset(s), back, multiset(v.contents), Pushed(before), call.elem);
      } else {
        RemoveStep(v, calls);
        if call.at < |s| {
          OneMoreOut(multiset(s), back, s[call.at]);
        }
      }
    }
  }

  //// Bounds over whole runs

  predicate PowerOfTwoTimes8(c: nat): (p: bool)
    ensures p ==> c >= DEFAULT_CAPACITY
  {
    c == DEFAULT_CAPACITY || (c > DEFAULT_CAPACITY && c % 2 == 0 && PowerOfTwoTimes8(c / 2))
  }

  ghost predicate Roomy(size: nat, capacity: nat) {
    size <= capacity && (capacity == DEFAULT_CAPACITY || capacity < 2 * size) && PowerOfTwoTimes8(capacity)
  }

  lemma GrowthKeeps(n: nat, c: nat)
    requires Roomy(n, c)
    ensures Roomy(n + 1, GrownCapacity(n, c))
  {
    var twice := 2 * c;
    assert twice / 2 == c && twice % 2 == 0;
    assert PowerOfTwoTimes8(twice);
  }

  lemma ShrinkingKeeps(n: nat, c: nat)
    requires Roomy(n, c) && n > 0
    ensures Roomy(n - 1, ShrunkCapacity(n - 1, c))
  {
    if c > DEFAULT_CAPACITY {
      assert c == 2 * (c / 2) && PowerOfTwoTimes8(c / 2);
    }
  }

  /** From a default vector, over every run: the contents always fit, and the capacity is 8 or
      under twice the size. */
  lemma {:induction false} SpaceBound<T>(calls: seq<Call<T>>)
    ensures var v := AfterAll(Vector([], 8, 0), calls);
            |v.contents| <= v.capacity && (v.capacity == 8 || v.capacity < 2 * |v.contents|)
    ensures PowerOfTwoTimes8(AfterAll(Vector([], 8, 0), calls).capacity)
  {
    if calls != [] {
      var before := AfterAll(Vector([], 8, 0), calls[..|calls| - 1]);
      SpaceBound(calls[..|calls| - 1]);
      GrowthKeeps(|before.contents|, before.capacity);
      if |before.contents| > 0 {
        ShrinkingKeeps(|before.contents|, before.capacity);
      }
    }
  }

  /** Pushing onto a fresh vector of any capacity moves fewer than twice as many elements. */
  lemma {:induction false} PushesMoveLittle<T>(initial: nat, calls: seq<Call<T>>)
    requires calls != [] && forall i :: 0 <= i < |calls| ==> calls[i].PushCall?
    ensures AfterAll(Vector([], initial, 0), calls).moved < 2 * |calls|
  {
    PushesMoved(initial, calls);
  }

  lemma {:induction false} PushesMoved<T>(initial: nat, calls: seq<Call<T>>)
    requires forall i :: 0 <= i < |calls| ==> calls[i].PushCall?
    ensures var v := AfterAll(Vector([], initial, 0), calls);
            && |v.contents| == |calls| <= v.capacity
            && v.moved <= v.capacity && (v.moved == 0 || v.capacity < 2 * |v.contents|)
  {
    if calls != [] {
      PushesMoved(initial, calls[..|calls| - 1]);
    }
  }

  /** The bound is for pushes only: at a full vector a push undone by a removal moves everything
      twice and leaves the same vector behind. */
  lemma BoundaryCallsMoveAll<T>(v: Vector<T>, x: T)
    requires |v.contents| == v.capacity >= 8
    ensures After(After(v, PushCall(x)), RemoveCall(v.capacity))
            == Vector(v.contents, v.capacity, v.moved + 2 * v.capacity)
  {
    assert SwapRemoved(v.contents + [x], v.capacity) == v.contents;
  }
}
