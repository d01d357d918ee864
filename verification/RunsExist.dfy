/** Runs exist: every sequence of calls is one, and what a single add leaves. */
module RunsExist {
  import opened Options
  import opened Address
  import opened RingDistance
  import opened Entries
  import opened Sorting
  import opened Leafsets
  import opened RouterStates
  import opened NextHops
  import opened Optimality

  //// Every sequence of calls is a run

  function InsertEntry(es: seq<Entry>, e: Entry, right: bool): (r: seq<Entry>) {
    if es == [] || Key(e, right) <= Key(es[0], right) then [e] + es else [es[0]] + InsertEntry(es[1..], e, right)
  }

  lemma {:induction false} InsertEntryContents(es: seq<Entry>, e: Entry, right: bool)
    ensures multiset(InsertEntry(es, e, right)) == multiset(es) + multiset{e}
  {
    if es != [] && Key(e, right) > Key(es[0], right) {
      InsertEntryContents(es[1..], e, right);
      assert es == [es[0]] + es[1..];
    }
  }

  lemma KeysOfCons(e: Entry, es: seq<Entry>, right: bool)
    ensures KeysOf([e] + es, right) == [Key(e, right)] + KeysOf(es, right)
  {
  }

  lemma {:induction false} InsertEntryKeys(es: seq<Entry>, e: Entry, right: bool)
    ensures KeysOf(InsertEntry(es, e, right), right) == Insert(KeysOf(es, right), Key(e, right))
  {
    if es == [] || Key(e, right) <= Key(es[0], right) {
      KeysOfCons(e, es, right);
    } else {
      InsertEntryKeys(es[1..], e, right);
      KeysOfCons(es[0], InsertEntry(es[1..], e, right), right);
      assert KeysOf(es, right)[1..] == KeysOf(es[1..], right);
    }
  }

  lemma {:induction false} SortEntries(es: seq<Entry>, right: bool) returns (r: seq<Entry>)
    ensures multiset(r) == multiset(es) && |r| == |es| && Ascending(KeysOf(r, right))
  {
    if es == [] {
      r := [];
    } else {
      var m := |es| - 1;
      var t := SortEntries(es[..m], right);
      r := InsertEntry(t, es[m], right);
      InsertEntryContents(t, es[m], right);
      InsertEntryKeys(t, es[m], right);
      InsertAscends(KeysOf(t, right), Key(es[m], right));
      assert es == es[..m] + [es[m]];
      assert |multiset(r)| == |multiset(es)|;
    }
  }

  lemma SortExists(before: seq<Entry>, right: bool) returns (after: seq<Entry>)
    ensures SortedFrom(before, after, right)
  {
    var m := SetPrefix(before);
    var front := SortEntries(before[..m], right);
    after := front + before[m..];
    assert after[..m] == front && after[m..] == before[m..];
  }

  lemma LeafStepExists(es: seq<Entry>, op: Op, right: bool) returns (es': seq<Entry>)
    requires es != [] && AllOfLength(es, |op.addr|)
    ensures LeafStep(es, es', op, right)
  {
    var m := SetPrefix(es);
    if op.Add? {
      if Refused(es, Written(op), right) {
        es' := es;
      } else {
        es' := SortExists(Placed(es, Written(op)), right);
      }
    } else if FirstAt(es[..m], op.addr) == m {
      es' := es;
    } else {
      es' := SortExists(Dropped(es, FirstAt(es[..m], op.addr)), right);
    }
  }

  lemma StepExists(s: State, op: Op) returns (s': State)
    requires Shape(s) && Foreign(s.self.addr, op) && AssertHolds(s, op)
    ensures Step(s, op, s')
  {
    var left, right := s.left, s.right;
    if GoesLeft(s.self.addr, op.addr) {
      left := LeafStepExists(left, op, false);
    } else {
      right := LeafStepExists(right, op, true);
    }
    s' := State(s.self, TableAfter(s, op), left, right);
  }

  /** Whatever calls naming other routers are made, a fresh router with a non-zero address takes
      them all: no assertion stops it. */
  lemma {:induction false} RunExists(self: Addr, net: NetAddr, k: nat, ops: seq<Op>) returns (ss: seq<State>)
    requires self != [] && k > 0 && AllForeign(self, ops) && self != Zeros(|self|)
    ensures Run(self, net, k, ops, ss)
  {
    if ops == [] {
      ss := [Init(self, net, k)];
    } else {
      var m := |ops| - 1;
      var before := RunExists(self, net, k, ops[..m]);
      RunKeepsInv(self, net, k, ops[..m], before);
      AssertionHoldsIff(self, net, k, ops[..m], before, ops[m]);
      var s := StepExists(before[m], ops[m]);
      ss := before + [s];
      RunExtends(self, net, k, ops, before, s);
    }
  }

  lemma RunExtends(self: Addr, net: NetAddr, k: nat, ops: seq<Op>, before: seq<State>, s: State)
    requires ops != [] && AllForeign(self, ops) && Run(self, net, k, ops[..|ops| - 1], before)
    requires var p := before[|ops| - 1]; Shape(p) && p.self.addr == self && Step(p, ops[|ops| - 1], s)
    ensures Run(self, net, k, ops, before + [s])
  {
    var m, ss := |ops| - 1, before + [s];
    forall i | 0 <= i < |ops|
      ensures Shape(ss[i]) && ss[i].self.addr == self && Step(ss[i], ops[i], ss[i + 1])
    {
      if i < m {
        assert Step(before[i], ops[..m][i], before[i + 1]);
      }
    }
  }

  //// One add

  /** One call that adds op.addr to a fresh router, and what it leaves in the leafsets. */
  ghost predicate OneLeaf(self: Addr, net: NetAddr, k: nat, op: Op, s: State) {
    && self != [] && k > 0 && op.Add? && Foreign(self, op)
    && Run(self, net, k, [op], [Init(self, net, k), s])
    && Inv(s) && s.self == Entry(true, self, net) && |s.left| == |s.right| == k
    && Keys(s.left, false) == (if GoesLeft(self, op.addr) then [KeyOfAddr(op.addr, false)] else [])
    && Keys(s.right, true) == (if GoesLeft(self, op.addr) then [] else [KeyOfAddr(op.addr, true)])
  }

  lemma HeldAfterOne(self: Addr, op: Op, k: nat, right: bool)
    requires k > 0 && op.Add? && Foreign(self, op)
    ensures Held(self, [op], k, right) == if GoesLeft(self, op.addr) == right then [] else [KeyOfAddr(op.addr, right)]
  {
    assert [op][..0] == [];
    assert Held(self, [], k, right) == [];
  }

  lemma AfterOneAdd(self: Addr, net: NetAddr, k: nat, op: Op, s: State)
    requires op.Add? && Run(self, net, k, [op], [Init(self, net, k), s])
    ensures OneLeaf(self, net, k, op, s)
  {
    var ss := [Init(self, net, k), s];
    RunKeepsInv(self, net, k, [op], ss);
    LeafsetsRefineHeld(self, net, k, [op], ss);
    assert Foreign(self, [op][0]);
    HeldAfterOne(self, op, k, false);
    HeldAfterOne(self, op, k, true);
  }

  /** The state after a single add to a fresh router. */
  lemma OneAdd(self: Addr, net: NetAddr, k: nat, op: Op) returns (s: State)
    requires self != [] && k > 0 && op.Add? && Foreign(self, op) && self != Zeros(|self|)
    ensures Run(self, net, k, [op], [Init(self, net, k), s])
    ensures AddsOnly([op]) && (k >= 2 ==> BothShort(s))
    ensures Inv(s) && s.self == Entry(true, self, net) && |s.left| == |s.right| == k
    ensures Keys(s.left, false) == if GoesLeft(self, op.addr) then [KeyOfAddr(op.addr, false)] else []
    ensures Keys(s.right, true) == if GoesLeft(self, op.addr) then [] else [KeyOfAddr(op.addr, true)]
  {
    var ss := RunExists(self, net, k, [op]);
    s := ss[1];
    assert ss == [Init(self, net, k), s];
    AfterOneAdd(self, net, k, op, s);
  }

  /** The single leaf is the leafset answer when it is closer than the router itself. */
  lemma CloserLeafIsPicked(self: Addr, net: NetAddr, k: nat, op: Op, s: State, dst: Addr)
    requires self != [] && k > 0 && op.Add? && Foreign(self, op) && |dst| == |self|
    requires Inv(s) && s.self == Entry(true, self, net)
    requires Keys(s.left, false) == if GoesLeft(self, op.addr) then [KeyOfAddr(op.addr, false)] else []
    requires Keys(s.right, true) == if GoesLeft(self, op.addr) then [] else [KeyOfAddr(op.addr, true)]
    requires DistNum(op.addr, dst) < DistNum(self, dst)
    ensures LeafsetPick(s, dst).isSet && LeafsetPick(s, dst).addr == op.addr
  {
    var left, pick := GoesLeft(self, op.addr), LeafsetPick(s, dst);
    var es := if left then s.left else s.right;
    assert Keys(es, !left)[0] == Key(es[0], !left);
    NumInjective(es[0].addr, op.addr);
    LeafsetPickIsNearest(s, dst, es[0]);
    DisplacesFirst(dst, LeafsetBests(s, dst), s.self);
    ClosestComesFrom(dst, s.left, None, 0, s.self);
    ClosestComesFrom(dst, s.right, None, 0, s.self);
    SetLeavesAreListed(s.left, false);
    SetLeavesAreListed(s.right, true);
  }

  //// Many adds of one address

  function Repeat(d: Addr, net: NetAddr, j: nat): (ops: seq<Op>)
    ensures |ops| == j && forall i :: 0 <= i < j ==> ops[i] == Add(d, net)
  {
    seq(j, _ => Add(d, net))
  }

  function Copies(x: int, j: nat): (s: seq<int>)
    ensures |s| == j && forall i :: 0 <= i < j ==> s[i] == x
  {
    seq(j, _ => x)
  }

  lemma OneMoreCopy(x: int, j: nat, k: nat)
    ensures Take(Insert(Take(Copies(x, j), k), x), k) == Take(Copies(x, j + 1), k)
  {
    var s := Take(Copies(x, j), k);
    assert Insert(s, x) == [x] + s;
  }

  /** Adds of one address fill its side with copies of it and leave the other side empty. */
  lemma {:induction false} CopiesHeld(self: Addr, d: Addr, net: NetAddr, k: nat, j: nat)
    requires |d| == |self| && !GoesLeft(self, d)
    ensures Held(self, Repeat(d, net, j), k, true) == Take(Copies(Num(d), j), k)
    ensures Held(self, Repeat(d, net, j), k, false) == []
  {
    if j > 0 {
      assert Repeat(d, net, j)[..j - 1] == Repeat(d, net, j - 1);
      CopiesHeld(self, d, net, k, j - 1);
      OneMoreCopy(Num(d), j - 1, k);
    }
  }

  lemma FullOfCopies(es: seq<Entry>, k: nat, x: int)
    requires k > 0 && Keys(es, true) == Copies(x, k)
    ensures SetPrefix(es) == k && forall i :: 0 <= i < k ==> Num(es[i].addr) == x
  {
    forall i | 0 <= i < k ensures Num(es[i].addr) == x {
      assert Keys(es, true)[i] == Key(es[i], true);
    }
  }
}
