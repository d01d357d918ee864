/** Routing state as a value: what add and remove do to it, and what every run of them keeps. */
module RouterStates {
  import opened Options
  import opened Address
  import opened Entries
  import opened Sorting
  import opened Leafsets

  const COLUMNS: nat := 16

  datatype State = State(self: Entry, table: seq<seq<Entry>>, left: seq<Entry>, right: seq<Entry>)

  /** A slot of zeroed memory. */
  function Blank(n: nat): Entry {
    Entry(false, Zeros(n), Unspecified)
  }

  /** A router for an n-byte address has 2n levels of 16 columns and two leafsets of equal size. */
  ghost predicate Shape(s: State) {
    var n := |s.self.addr|;
    && n > 0 && s.self.isSet
    && |s.table| == 2 * n
    && (forall l :: 0 <= l < 2 * n ==> |s.table[l]| == COLUMNS && AllOfLength(s.table[l], n))
    && |s.left| == |s.right| > 0
    && AllOfLength(s.left, n) && AllOfLength(s.right, n)
  }

  function Init(addr: Addr, net: NetAddr, k: nat): State {
    var n := |addr|;
    State(Entry(true, addr, net),
          seq(2 * n, _ => seq(COLUMNS, _ => Blank(n))),
          seq(k, _ => Blank(n)), seq(k, _ => Blank(n)))
  }

  //// Steps

  /** One call. A removal writes an unset entry whose network address was never initialised. */
  datatype Op = Add(addr: Addr, net: NetAddr) | Remove(addr: Addr, junk: NetAddr)

  function Written(op: Op): Entry {
    match op
    case Add(addr, net) => Entry(true, addr, net)
    case Remove(addr, junk) => Entry(false, addr, junk)
  }

  /** The operation names some other router. */
  ghost predicate Foreign(self: Addr, op: Op) {
    |op.addr| == |self| && op.addr != self
  }

  lemma ForeignIndexInBounds(self: Addr, op: Op)
    requires Foreign(self, op)
    ensures Level(self, op.addr) < 2 * |self| && Column(self, op.addr) < COLUMNS
  {
    OrdersAgree(self, op.addr);
  }

  function SlotOf(s: State, op: Op): (e: Entry)
    requires Shape(s) && Foreign(s.self.addr, op)
    ensures |e.addr| == |s.self.addr|
  {
    ForeignIndexInBounds(s.self.addr, op);
    s.table[Level(s.self.addr, op.addr)][Column(s.self.addr, op.addr)]
  }

  /** The code's assertion on the slot about to be overwritten. */
  ghost predicate AssertHolds(s: State, op: Op)
    requires Shape(s) && Foreign(s.self.addr, op)
  {
    Cmp(s.self.addr, SlotOf(s, op).addr) != 0
  }

  function TableAfter(s: State, op: Op): seq<seq<Entry>>
    requires Shape(s) && Foreign(s.self.addr, op)
  {
    ForeignIndexInBounds(s.self.addr, op);
    var l, c := Level(s.self.addr, op.addr), Column(s.self.addr, op.addr);
    s.table[l := s.table[l][c := Written(op)]]
  }

  predicate GoesLeft(self: Addr, addr: Addr)
    requires |self| == |addr|
  {
    Cmp(addr, self) < 0
  }

  ghost predicate LeafStep(es: seq<Entry>, es': seq<Entry>, op: Op, right: bool)
    requires es != [] && AllOfLength(es, |op.addr|)
  {
    if op.Add? then InsertStep(es, es', Written(op), right) else ExtractStep(es, es', op.addr, right)
  }

  ghost predicate Step(s: State, op: Op, s': State)
    requires Shape(s) && Foreign(s.self.addr, op)
  {
    && AssertHolds(s, op)
    && s'.self == s.self
    && s'.table == TableAfter(s, op)
    && if GoesLeft(s.self.addr, op.addr) then LeafStep(s.left, s'.left, op, false) && s'.right == s.right
       else LeafStep(s.right, s'.right, op, true) && s'.left == s.left
  }

  //// The invariant

  ghost predicate SlotOk(self: Addr, l: nat, c: nat, e: Entry)
    requires |self| == |e.addr|
  {
    e.isSet ==> e.addr != self && Level(self, e.addr) == l && Column(self, e.addr) == c
  }

  /** Every set entry sits in the slot its address indexes to. */
  ghost predicate TableOk(s: State)
    requires Shape(s)
  {
    forall l, c :: 0 <= l < |s.table| && 0 <= c < COLUMNS ==> SlotOk(s.self.addr, l, c, s.table[l][c])
  }

  /** Left leaves lie below the router's own address, right ones above. */
  ghost predicate OnSide(self: Addr, es: seq<Entry>, right: bool) {
    forall i :: 0 <= i < |es| && es[i].isSet ==>
      if right then Num(self) < Num(es[i].addr) else Num(es[i].addr) < Num(self)
  }

  ghost predicate LeafsetOk(self: Addr, es: seq<Entry>, right: bool) {
    Ordered(es, right) && OnSide(self, es, right)
  }

  ghost predicate Inv(s: State) {
    && Shape(s) && TableOk(s)
    && LeafsetOk(s.self.addr, s.left, false) && LeafsetOk(s.self.addr, s.right, true)
  }

  lemma InitInv(addr: Addr, net: NetAddr, k: nat)
    requires addr != [] && k > 0
    ensures Inv(Init(addr, net, k))
    ensures forall right :: Keys(Init(addr, net, k).left, right) == Keys(Init(addr, net, k).right, right) == []
  {
  }

  lemma LeafStepKeeps(self: Addr, es: seq<Entry>, es': seq<Entry>, op: Op, right: bool)
    requires es != [] && AllOfLength(es, |op.addr|) && Foreign(self, op)
    requires LeafsetOk(self, es, right) && LeafStep(es, es', op, right)
    requires right <==> !GoesLeft(self, op.addr)
    ensures |es'| == |es| && AllOfLength(es', |self|) && LeafsetOk(self, es', right)
  {
    CmpIsNumericOrder(op.addr, self);
    if op.Add? {
      InsertKeepsNearest(es, es', Written(op), right);
    } else {
      ExtractRemovesOne(es, es', op.addr, right);
    }
    forall i | 0 <= i < |es'| && es'[i].isSet
      ensures if right then Num(self) < Num(es'[i].addr) else Num(es'[i].addr) < Num(self)
    {
      assert es'[i] in es';
    }
  }

  lemma TableStepKeeps(s: State, op: Op)
    requires Shape(s) && TableOk(s) && Foreign(s.self.addr, op)
    ensures var t := TableAfter(s, op);
            && |t| == |s.table|
            && (forall l :: 0 <= l < |t| ==> |t[l]| == COLUMNS && AllOfLength(t[l], |s.self.addr|))
            && forall l, c :: 0 <= l < |t| && 0 <= c < COLUMNS ==> SlotOk(s.self.addr, l, c, t[l][c])
  {
    ForeignIndexInBounds(s.self.addr, op);
  }

  lemma StepKeepsInv(s: State, op: Op, s': State)
    requires Inv(s) && Foreign(s.self.addr, op) && Step(s, op, s')
    ensures Inv(s')
  {
    TableStepKeeps(s, op);
    if GoesLeft(s.self.addr, op.addr) {
      LeafStepKeeps(s.self.addr, s.left, s'.left, op, false);
    } else {
      LeafStepKeeps(s.self.addr, s.right, s'.right, op, true);
    }
  }

  //// Runs

  ghost predicate AllForeign(self: Addr, ops: seq<Op>) {
    forall i :: 0 <= i < |ops| ==> Foreign(self, ops[i])
  }

  /** ss are the states of a fresh router before, between and after the calls ops. */
  ghost predicate Run(self: Addr, net: NetAddr, k: nat, ops: seq<Op>, ss: seq<State>) {
    && self != [] && k > 0 && AllForeign(self, ops)
    && |ss| == |ops| + 1 && ss[0] == Init(self, net, k)
    && forall i :: 0 <= i < |ops| ==> Shape(ss[i]) && ss[i].self.addr == self && Step(ss[i], ops[i], ss[i + 1])
  }

  lemma RunPrefix(self: Addr, net: NetAddr, k: nat, ops: seq<Op>, ss: seq<State>)
    requires Run(self, net, k, ops, ss) && ops != []
    ensures Run(self, net, k, ops[..|ops| - 1], ss[..|ss| - 1])
  {
  }

  /** The invariant holds after every run. */
  lemma {:induction false} RunKeepsInv(self: Addr, net: NetAddr, k: nat, ops: seq<Op>, ss: seq<State>)
    requires Run(self, net, k, ops, ss)
    ensures var s := ss[|ops|];
            Inv(s) && s.self == Entry(true, self, net) && |s.left| == |s.right| == k
  {
    if ops == [] {
      InitInv(self, net, k);
    } else {
      var m := |ops| - 1;
      RunPrefix(self, net, k, ops, ss);
      RunKeepsInv(self, net, k, ops[..m], ss[..m + 1]);
      var s, s' := ss[m], ss[m + 1];
      StepKeepsInv(s, ops[m], s');
      if GoesLeft(self, ops[m].addr) {
        LeafStepKeeps(self, s.left, s'.left, ops[m], false);
      } else {
        LeafStepKeeps(self, s.right, s'.right, ops[m], true);
      }
    }
  }

  //// The table remembers the last operation on each slot

  predicate Indexes(self: Addr, op: Op, l: nat, c: nat)
    requires |op.addr| == |self|
  {
    Level(self, op.addr) == l && Column(self, op.addr) == c
  }

  /** The last operation whose address indexes to (l, c). */
  function LastAt(self: Addr, ops: seq<Op>, l: nat, c: nat): Option<Op>
    requires forall i :: 0 <= i < |ops| ==> |ops[i].addr| == |self|
  {
    if ops == [] then None
    else if Indexes(self, ops[|ops| - 1], l, c) then Some(ops[|ops| - 1])
    else LastAt(self, ops[..|ops| - 1], l, c)
  }

  /** Slot (l, c) is set iff the last operation indexing to it was an add, and then holds its entry. */
  lemma {:induction false} TableIsHistory(self: Addr, net: NetAddr, k: nat, ops: seq<Op>, ss: seq<State>,
                                          l: nat, c: nat)
    requires Run(self, net, k, ops, ss) && l < 2 * |self| && c < COLUMNS
    ensures Shape(ss[|ops|]) && ss[|ops|].self.addr == self
    ensures ss[|ops|].table[l][c] == match LastAt(self, ops, l, c)
                                     case None => Blank(|self|)
                                     case Some(op) => Written(op)
  {
    RunKeepsInv(self, net, k, ops, ss);
    if ops != [] {
      var m := |ops| - 1;
      RunPrefix(self, net, k, ops, ss);
      TableIsHistory(self, net, k, ops[..m], ss[..m + 1], l, c);
      ForeignIndexInBounds(self, ops[m]);
    }
  }

  lemma LastAtIsForeign(self: Addr, ops: seq<Op>, l: nat, c: nat)
    requires AllForeign(self, ops)
    ensures LastAt(self, ops, l, c).Some? ==> Foreign(self, LastAt(self, ops, l, c).value)
  {
  }

  /** The "should be impossible" assertion never fires, unless the router's own address is zero. */
  lemma AssertionHoldsIff(self: Addr, net: NetAddr, k: nat, ops: seq<Op>, ss: seq<State>, op: Op)
    requires Run(self, net, k, ops, ss) && Foreign(self, op)
    ensures var s := ss[|ops|];
            && Shape(s) && s.self.addr == self
            && (AssertHolds(s, op) <==> self != Zeros(|self|))
  {
    if ops == [] {
      FirstCallNeedsNonZero(self, net, k, op, ss[0]);
    } else {
      SlotNeverSelf(self, net, k, ops, ss, op);
      assert Step(ss[0], ops[0], ss[1]);
      FirstCallNeedsNonZero(self, net, k, ops[0], ss[0]);
    }
  }

  lemma SlotNeverSelf(self: Addr, net: NetAddr, k: nat, ops: seq<Op>, ss: seq<State>, op: Op)
    requires Run(self, net, k, ops, ss) && Foreign(self, op)
    ensures var s := ss[|ops|];
            && Shape(s) && s.self.addr == self
            && (self != Zeros(|self|) ==> AssertHolds(s, op))
  {
    var l, c := Level(self, op.addr), Column(self, op.addr);
    ForeignIndexInBounds(self, op);
    TableIsHistory(self, net, k, ops, ss, l, c);
    LastAtIsForeign(self, ops, l, c);
    CmpIsNumericOrder(self, SlotOf(ss[|ops|], op).addr);
  }

  lemma FirstCallNeedsNonZero(self: Addr, net: NetAddr, k: nat, op: Op, s: State)
    requires self != [] && k > 0 && s == Init(self, net, k) && Shape(s) && Foreign(self, op)
    ensures AssertHolds(s, op) <==> self != Zeros(|self|)
  {
    ForeignIndexInBounds(self, op);
    CmpIsNumericOrder(self, SlotOf(s, op).addr);
  }

  //// Leafsets refine a bounded sorted list

  function RemoveOne(s: seq<int>, x: int): seq<int> {
    if s == [] then [] else if s[0] == x then s[1..] else [s[0]] + RemoveOne(s[1..], x)
  }

  lemma {:induction false} RemoveOneContents(s: seq<int>, x: int)
    ensures multiset(RemoveOne(s, x)) == multiset(s) - multiset{x}
  {
    if s != [] {
      assert s == [s[0]] + s[1..];
      if s[0] != x {
        RemoveOneContents(s[1..], x);
      }
    }
  }

  lemma {:induction false} RemoveOneAscends(s: seq<int>, x: int)
    requires Ascending(s)
    ensures Ascending(RemoveOne(s, x))
    ensures forall i :: 0 <= i < |RemoveOne(s, x)| ==> s[0] <= RemoveOne(s, x)[i]
  {
    if s != [] && s[0] != x && |s| > 1 {
      RemoveOneAscends(s[1..], x);
    }
  }

  /** The keys one side holds after ops: each add keeps the k nearest, each remove drops one copy. */
  function Held(self: Addr, ops: seq<Op>, k: nat, right: bool): seq<int>
    requires forall i :: 0 <= i < |ops| ==> |ops[i].addr| == |self|
  {
    if ops == [] then []
    else
      var op := ops[|ops| - 1];
      var before := Held(self, ops[..|ops| - 1], k, right);
      var x := KeyOfAddr(op.addr, right);
      if GoesLeft(self, op.addr) == right then before
      else if op.Add? then Take(Insert(before, x), k)
      else RemoveOne(before, x)
  }

  lemma LeafStepOnKeys(es: seq<Entry>, es': seq<Entry>, op: Op, right: bool)
    requires es != [] && AllOfLength(es, |op.addr|) && Ordered(es, right) && LeafStep(es, es', op, right)
    ensures var x := KeyOfAddr(op.addr, right);
            Keys(es', right) == if op.Add? then Take(Insert(Keys(es, right), x), |es|)
                                else RemoveOne(Keys(es, right), x)
  {
    if op.Add? {
      InsertKeepsNearest(es, es', Written(op), right);
    } else {
      ExtractRemovesOne(es, es', op.addr, right);
      RemoveOneContents(Keys(es, right), KeyOfAddr(op.addr, right));
      RemoveOneAscends(Keys(es, right), KeyOfAddr(op.addr, right));
      AscendingUnique(Keys(es', right), RemoveOne(Keys(es, right), KeyOfAddr(op.addr, right)));
    }
  }

  /** Over every run both leafsets hold exactly the keys of the bounded sorted list. */
  lemma {:induction false} LeafsetsRefineHeld(self: Addr, net: NetAddr, k: nat, ops: seq<Op>, ss: seq<State>)
    requires Run(self, net, k, ops, ss)
    ensures Keys(ss[|ops|].left, false) == Held(self, ops, k, false)
    ensures Keys(ss[|ops|].right, true) == Held(self, ops, k, true)
  {
    if ops == [] {
      InitInv(self, net, k);
    } else {
      var m := |ops| - 1;
      RunPrefix(self, net, k, ops, ss);
      LeafsetsRefineHeld(self, net, k, ops[..m], ss[..m + 1]);
      RunKeepsInv(self, net, k, ops[..m], ss[..m + 1]);
      var s, s' := ss[m], ss[m + 1];
      if GoesLeft(self, ops[m].addr) {
        LeafStepOnKeys(s.left, s'.left, ops[m], false);
      } else {
        LeafStepOnKeys(s.right, s'.right, ops[m], true);
      }
    }
  }

  ghost predicate AddsOnly(ops: seq<Op>) {
    forall i :: 0 <= i < |ops| ==> ops[i].Add?
  }

  /** Keys of every address added on one side, in the order of the calls. */
  function AddedKeys(self: Addr, ops: seq<Op>, right: bool): seq<int>
    requires forall i :: 0 <= i < |ops| ==> |ops[i].addr| == |self|
  {
    if ops == [] then []
    else
      var op := ops[|ops| - 1];
      AddedKeys(self, ops[..|ops| - 1], right) +
      if GoesLeft(self, op.addr) == right then [] else [KeyOfAddr(op.addr, right)]
  }

  lemma {:induction false} HeldIsNearest(self: Addr, ops: seq<Op>, k: nat, right: bool)
    requires AllForeign(self, ops) && AddsOnly(ops)
    ensures Held(self, ops, k, right) == Take(Sort(AddedKeys(self, ops, right)), k)
  {
    if ops != [] {
      var op, before := ops[|ops| - 1], ops[..|ops| - 1];
      HeldIsNearest(self, before, k, right);
      var keys, x := AddedKeys(self, before, right), KeyOfAddr(op.addr, right);
      if GoesLeft(self, op.addr) != right {
        assert (keys + [x])[..|keys|] == keys;
        assert Sort(keys + [x]) == Insert(Sort(keys), x);
        TakeInsert(Sort(keys), x, k);
      } else {
        assert keys + [] == keys;
      }
    }
  }

  /** After any adds, the right leafset is the k smallest addresses added above the router in
      ascending order, and the left one the k largest below it in descending order. */
  lemma LeafsetsKeepNearest(self: Addr, net: NetAddr, k: nat, ops: seq<Op>, ss: seq<State>)
    requires Run(self, net, k, ops, ss) && AddsOnly(ops)
    ensures Keys(ss[|ops|].left, false) == Take(Sort(AddedKeys(self, ops, false)), k)
    ensures Keys(ss[|ops|].right, true) == Take(Sort(AddedKeys(self, ops, true)), k)
  {
    LeafsetsRefineHeld(self, net, k, ops, ss);
    HeldIsNearest(self, ops, k, false);
    HeldIsNearest(self, ops, k, true);
  }
}
