/** Routers against the calls made on them: what is set was added, and what was removed is forgotten. */
module RouterHistory {
  import opened Address
  import opened Entries
  import opened Sorting
  import opened Leafsets
  import opened RouterStates
  import opened NextHops

  //// What is set was added

  /** Some call added the entry's address at the entry's network address. */
  ghost predicate Added(ops: seq<Op>, e: Entry) {
    exists i :: 0 <= i < |ops| && ops[i] == Add(e.addr, e.net)
  }

  /** Over every run a slot is set iff the last call indexing to it was an add, and then holds what
      that add named. */
  lemma TableSetIff(self: Addr, net: NetAddr, k: nat, ops: seq<Op>, ss: seq<State>, l: nat, c: nat)
    requires Run(self, net, k, ops, ss) && l < 2 * |self| && c < COLUMNS
    ensures Shape(ss[|ops|]) && ss[|ops|].self.addr == self
    ensures var slot, last := ss[|ops|].table[l][c], LastAt(self, ops, l, c);
            && (slot.isSet <==> last.Some? && last.value.Add?)
            && (slot.isSet ==> slot == Entry(true, last.value.addr, last.value.net))
  {
    TableIsHistory(self, net, k, ops, ss, l, c);
  }

  lemma {:induction false} LastAtIsCall(self: Addr, ops: seq<Op>, l: nat, c: nat)
    requires AllForeign(self, ops) && LastAt(self, ops, l, c).Some?
    ensures LastAt(self, ops, l, c).value in ops && Indexes(self, LastAt(self, ops, l, c).value, l, c)
  {
    var m := |ops| - 1;
    if !Indexes(self, ops[m], l, c) {
      LastAtIsCall(self, ops[..m], l, c);
    }
  }

  lemma AddedEarlier(ops: seq<Op>, m: nat, e: Entry)
    requires m <= |ops| && Added(ops[..m], e)
    ensures Added(ops, e)
  {
    var i :| 0 <= i < m && ops[..m][i] == Add(e.addr, e.net);
    assert ops[i] == Add(e.addr, e.net);
  }

  lemma LeafFromStep(es: seq<Entry>, es': seq<Entry>, op: Op, right: bool, e: Entry)
    requires es != [] && AllOfLength(es, |op.addr|) && Ordered(es, right) && LeafStep(es, es', op, right)
    requires e in es' && e.isSet
    ensures e in es || (op.Add? && e == Entry(true, op.addr, op.net))
  {
    if op.Add? {
      InsertKeepsNearest(es, es', Written(op), right);
    } else {
      ExtractRemovesOne(es, es', op.addr, right);
    }
  }

  /** Over every run each leaf is an entry some call added. */
  lemma {:induction false} LeavesWereAdded(self: Addr, net: NetAddr, k: nat, ops: seq<Op>, ss: seq<State>, e: Entry)
    requires Run(self, net, k, ops, ss) && e.isSet && (e in ss[|ops|].left || e in ss[|ops|].right)
    ensures Added(ops, e)
  {
    if ops == [] {
      InitInv(self, net, k);
    } else {
      var m := |ops| - 1;
      var op, s, s' := ops[m], ss[m], ss[m + 1];
      RunPrefix(self, net, k, ops, ss);
      RunKeepsInv(self, net, k, ops[..m], ss[..m + 1]);
      assert Step(s, op, s');
      if GoesLeft(self, op.addr) && e in s'.left {
        LeafFromStep(s.left, s'.left, op, false, e);
      } else if !GoesLeft(self, op.addr) && e in s'.right {
        LeafFromStep(s.right, s'.right, op, true, e);
      }
      if e in s.left || e in s.right {
        LeavesWereAdded(self, net, k, ops[..m], ss[..m + 1], e);
        AddedEarlier(ops, m, e);
      }
    }
  }

  lemma HeldWasAdded(self: Addr, net: NetAddr, k: nat, ops: seq<Op>, ss: seq<State>, e: Entry)
    requires Run(self, net, k, ops, ss) && e.isSet && HeldBy(ss[|ops|], e)
    ensures Added(ops, e)
  {
    var s := ss[|ops|];
    RunKeepsInv(self, net, k, ops, ss);
    if HeldInTable(s, e) {
      var l, c :| 0 <= l < |s.table| && 0 <= c < |s.table[l]| && s.table[l][c] == e;
      TableSetIff(self, net, k, ops, ss, l, c);
      LastAtIsCall(self, ops, l, c);
      var i :| 0 <= i < |ops| && ops[i] == LastAt(self, ops, l, c).value;
      assert ops[i] == Add(e.addr, e.net);
    } else {
      LeavesWereAdded(self, net, k, ops, ss, e);
    }
  }

  /** Over every run, whatever the range test answers: a set next hop names an address and a network
      address that some add named together. */
  lemma HopWasAdded(self: Addr, net: NetAddr, k: nat, ops: seq<Op>, ss: seq<State>, dst: Addr, inRange: bool)
    requires Run(self, net, k, ops, ss) && |dst| == |self|
    ensures Inv(ss[|ops|]) && ss[|ops|].self.addr == self
    ensures var e := NextHopWith(ss[|ops|], dst, inRange); e.isSet ==> Added(ops, e)
  {
    RunKeepsInv(self, net, k, ops, ss);
    HopMakesProgress(ss[|ops|], dst, inRange);
    var e := NextHopWith(ss[|ops|], dst, inRange);
    if e.isSet {
      HeldWasAdded(self, net, k, ops, ss, e);
    }
  }

  //// What was removed is forgotten

  /** Right after the removal of x, the slot x indexes to is unset. */
  lemma RemovalUnsetsSlot(self: Addr, net: NetAddr, k: nat, ops: seq<Op>, ss: seq<State>, x: Addr)
    requires Run(self, net, k, ops, ss) && ops != [] && ops[|ops| - 1].Remove? && ops[|ops| - 1].addr == x
    ensures |x| == |self| && Level(self, x) < 2 * |self| && Column(self, x) < COLUMNS
    ensures Shape(ss[|ops|]) && ss[|ops|].self.addr == self
    ensures !ss[|ops|].table[Level(self, x)][Column(self, x)].isSet
  {
    assert Foreign(self, ops[|ops| - 1]);
    ForeignIndexInBounds(self, ops[|ops| - 1]);
    TableSetIff(self, net, k, ops, ss, Level(self, x), Column(self, x));
  }

  /** Adds of x not yet undone by a removal. */
  function Outstanding(ops: seq<Op>, x: Addr): nat {
    if ops == [] then 0
    else
      var op, n := ops[|ops| - 1], Outstanding(ops[..|ops| - 1], x);
      if op.addr != x then n else if op.Add? then n + 1 else if n > 0 then n - 1 else 0
  }

  lemma TakeHasNoMore(s: seq<int>, k: nat, x: int)
    ensures multiset(Take(s, k))[x] <= multiset(s)[x]
  {
    if k < |s| {
      assert s == s[..k] + s[k..];
    }
  }

  lemma {:induction false} CopiesAreOutstanding(self: Addr, ops: seq<Op>, k: nat, x: Addr)
    requires AllForeign(self, ops) && |x| == |self|
    ensures var right := !GoesLeft(self, x);
            multiset(Held(self, ops, k, right))[KeyOfAddr(x, right)] <= Outstanding(ops, x)
  {
    if ops != [] {
      var m, right := |ops| - 1, !GoesLeft(self, x);
      var op, before := ops[m], Held(self, ops[..m], k, right);
      var key := KeyOfAddr(op.addr, right);
      CopiesAreOutstanding(self, ops[..m], k, x);
      assert Foreign(self, op);
      NumInjective(op.addr, x);
      InsertContents(before, key);
      TakeHasNoMore(Insert(before, key), k, KeyOfAddr(x, right));
      RemoveOneContents(before, key);
    }
  }

  lemma {:induction false} LastAddIsOutstanding(self: Addr, ops: seq<Op>, l: nat, c: nat)
    requires AllForeign(self, ops) && LastAt(self, ops, l, c).Some? && LastAt(self, ops, l, c).value.Add?
    ensures Outstanding(ops, LastAt(self, ops, l, c).value.addr) > 0
  {
    var m := |ops| - 1;
    LastAtIsCall(self, ops, l, c);
    if !Indexes(self, ops[m], l, c) {
      LastAddIsOutstanding(self, ops[..m], l, c);
    }
  }

  lemma NoLeafWithoutKey(es: seq<Entry>, right: bool, e: Entry)
    requires Ordered(es, right) && e in es && e.isSet
    ensures multiset(Keys(es, right))[Key(e, right)] > 0
  {
    SetLeavesAreListed(es, right);
    var i :| 0 <= i < SetPrefix(es) && es[i] == e;
    assert Keys(es, right)[i] == Key(e, right);
    assert Key(e, right) in Keys(es, right);
  }

  lemma LeafIsOutstanding(self: Addr, net: NetAddr, k: nat, ops: seq<Op>, ss: seq<State>, e: Entry)
    requires Run(self, net, k, ops, ss) && e.isSet && (e in ss[|ops|].left || e in ss[|ops|].right)
    ensures Outstanding(ops, e.addr) > 0
  {
    var s := ss[|ops|];
    RunKeepsInv(self, net, k, ops, ss);
    LeafsetsRefineHeld(self, net, k, ops, ss);
    CmpIsNumericOrder(e.addr, self);
    CopiesAreOutstanding(self, ops, k, e.addr);
    if e in s.left {
      NoLeafWithoutKey(s.left, false, e);
    } else {
      NoLeafWithoutKey(s.right, true, e);
    }
  }

  /** Over every run: an address whose adds have all been undone by removals is held nowhere, so no next
      hop names it. */
  lemma RemovedIsForgotten(self: Addr, net: NetAddr, k: nat, ops: seq<Op>, ss: seq<State>, x: Addr)
    requires Run(self, net, k, ops, ss) && Outstanding(ops, x) == 0
    ensures Inv(ss[|ops|]) && ss[|ops|].self.addr == self
    ensures forall e :: HeldBy(ss[|ops|], e) && e.isSet ==> e.addr != x
    ensures forall dst: Addr, inRange: bool | |dst| == |self| ::
              var e := NextHopWith(ss[|ops|], dst, inRange); e.isSet ==> e.addr != x
  {
    var s := ss[|ops|];
    RunKeepsInv(self, net, k, ops, ss);
    forall e | HeldBy(s, e) && e.isSet ensures e.addr != x {
      if HeldInTable(s, e) {
        var l, c :| 0 <= l < |s.table| && 0 <= c < |s.table[l]| && s.table[l][c] == e;
        TableSetIff(self, net, k, ops, ss, l, c);
        LastAddIsOutstanding(self, ops, l, c);
      } else {
        LeafIsOutstanding(self, net, k, ops, ss, e);
      }
    }
    forall dst: Addr, inRange: bool | |dst| == |self|
      ensures var e := NextHopWith(s, dst, inRange); e.isSet ==> e.addr != x
    {
      HopMakesProgress(s, dst, inRange);
    }
  }
}
