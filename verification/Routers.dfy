/** The router object: a prefix table and two leafsets changed in place. */
module Routers {
  import opened Options
  import opened Address
  import opened Entries
  import opened Leafsets
  import opened RouterStates
  import opened NextHops
  import opened Queries

  class Router {
    var self: Entry
    const table: array2<Entry>
    const left: array<Entry>
    const right: array<Entry>

    ghost predicate Valid()
      reads this, table, left, right
    {
      && left != right
      && table.Length1 == COLUMNS
      && Shape(Model())
    }

    ghost function Row(l: nat): (r: seq<Entry>)
      requires l < table.Length0
      reads table
      ensures |r| == table.Length1
    {
      seq(table.Length1, c requires 0 <= c < table.Length1 reads table => table[l, c])
    }

    /** The routing state the fields hold. */
    ghost function Model(): (s: State)
      reads this, table, left, right
    {
      State(self, seq(table.Length0, l requires 0 <= l < table.Length0 reads table => Row(l)), left[..], right[..])
    }

    constructor (selfAddr: Addr, selfNet: Option<NetAddr>, k: nat)
      requires selfAddr != [] && k > 0
      ensures Valid() && fresh(table) && fresh(left) && fresh(right)
      ensures Model() == Init(selfAddr, if selfNet.Some? then selfNet.value else Unspecified, k)
      ensures self == Entry(true, selfAddr, if selfNet.Some? then selfNet.value else Unspecified)
      ensures forall l, c :: 0 <= l < table.Length0 && 0 <= c < table.Length1 ==>
                table[l, c] == Entry(false, Zeros(|selfAddr|), Unspecified)
      ensures forall i :: 0 <= i < k ==> left[i] == right[i] == Entry(false, Zeros(|selfAddr|), Unspecified)
    {
      var n := |selfAddr|;
      self := Entry(true, selfAddr, if selfNet.Some? then selfNet.value else Unspecified);
      table := new Entry[2 * n, COLUMNS]((_, _) => Blank(n));
      left := new Entry[k](_ => Blank(n));
      right := new Entry[k](_ => Blank(n));
      new;
      var s := Init(selfAddr, self.net, k);
      assert forall l :: 0 <= l < 2 * n ==> Row(l) == s.table[l];
      assert left[..] == s.left && right[..] == s.right;
      assert Model() == s;
    }

    /** Overwrites the slot e's address indexes to; false when the assertion on it fires. */
    method Set(op: Op) returns (ok: bool)
      requires Valid() && Foreign(self.addr, op)
      modifies table
      ensures Valid()
      ensures ok == old(AssertHolds(Model(), op))
      ensures Model() == old(if ok then Model().(table := TableAfter(Model(), op)) else Model())
      ensures ok ==> SlotOf(Model(), op) == Written(op)
    {
      ghost var s := Model();
      ForeignIndexInBounds(self.addr, op);
      var level, column := Index(self.addr, op.addr);
      assert table[level, column] == s.table[level][column];
      var d := Compare(self.addr, table[level, column].addr);
      if d == 0 {
        return false;
      }
      table[level, column] := Written(op);
      ghost var t := TableAfter(s, op);
      forall l | 0 <= l < table.Length0 ensures Row(l) == t[l] {
      }
      assert Model() == s.(table := t);
      return true;
    }

    method UpdateLeafset(op: Op)
      requires Valid() && Foreign(self.addr, op)
      modifies left, right
      ensures Valid()
      ensures Model().self == old(Model().self) && Model().table == old(Model().table)
      ensures if GoesLeft(self.addr, op.addr) then
                LeafStep(old(left[..]), left[..], op, false) && right[..] == old(right[..])
              else LeafStep(old(right[..]), right[..], op, true) && left[..] == old(left[..])
    {
      ghost var s := Model();
      var d := Compare(op.addr, self.addr);
      if d < 0 {
        if op.Add? {
          InsertLeaf(left, Written(op), false);
        } else {
          ExtractLeaf(left, Written(op), false);
        }
      } else {
        if op.Add? {
          InsertLeaf(right, Written(op), true);
        } else {
          ExtractLeaf(right, Written(op), true);
        }
      }
      assert Model().table == s.table;
    }

    method Apply(op: Op) returns (ok: bool)
      requires Valid() && Foreign(self.addr, op)
      modifies table, left, right
      ensures Valid()
      ensures ok == old(AssertHolds(Model(), op))
      ensures ok ==> Step(old(Model()), op, Model()) && SlotOf(Model(), op) == Written(op)
      ensures !ok ==> Model() == old(Model())
    {
      ok := Set(op);
      if ok {
        UpdateLeafset(op);
      }
    }

    /** Adds an entry to the table and to the leafset of its side. */
    method Add(addr: Addr, net: Option<NetAddr>) returns (ok: bool)
      requires Valid() && |addr| == |self.addr| && addr != self.addr
      modifies table, left, right
      ensures Valid()
      ensures var op := Op.Add(addr, if net.Some? then net.value else Unspecified);
              && ok == old(AssertHolds(Model(), op))
              && (if ok then Step(old(Model()), op, Model()) else Model() == old(Model()))
              && (ok ==> SlotOf(Model(), op) == Entry(true, addr, if net.Some? then net.value else Unspecified))
    {
      ok := Apply(Op.Add(addr, if net.Some? then net.value else Unspecified));
    }

    /** Unsets the slot and drops one copy of the address from its leafset. */
    method Remove(addr: Addr, junk: NetAddr) returns (ok: bool)
      requires Valid() && |addr| == |self.addr| && addr != self.addr
      modifies table, left, right
      ensures Valid()
      ensures var op := Op.Remove(addr, junk);
              && ok == old(AssertHolds(Model(), op))
              && (if ok then Step(old(Model()), op, Model()) else Model() == old(Model()))
              && (ok ==> SlotOf(Model(), op) == Entry(false, addr, junk))
    {
      ok := Apply(Op.Remove(addr, junk));
    }

    //// Next hop

    method ReadBound(leafset: array<Entry>, beyond: Addr) returns (bound: Addr)
      ensures bound == BoundRead(self.addr, leafset[..], beyond)
    {
      var count := ArrayLen(leafset);
      if count == 0 {
        bound := self.addr;
      } else if count < leafset.Length {
        bound := leafset[count].addr;
      } else {
        bound := beyond;
      }
    }

    method IsOnRange(dst: Addr, beyond: Beyond) returns (r: bool)
      requires Valid() && Fits(Model(), dst, beyond)
      ensures r == OnRange(Model(), dst, beyond)
    {
      var leftBound := ReadBound(left, beyond.left);
      var rightBound := ReadBound(right, beyond.right);
      var d := Compare(leftBound, dst);
      var e := Compare(dst, rightBound);
      r := d <= 0 && e <= 0;
    }

    method Settle(e: Entry) returns (r: Entry)
      requires Valid() && |e.addr| == |self.addr|
      ensures r == SettleSelf(Model(), e)
    {
      var d := CompareEntries(e, self);
      r := if d == 0 then e.(isSet := false) else e;
    }

    method ReadRow(l: nat) returns (row: seq<Entry>)
      requires Valid() && l < table.Length0
      ensures row == Model().table[l]
    {
      row := [];
      for c := 0 to COLUMNS
        invariant row == Row(l)[..c]
      {
        row := row + [table[l, c]];
      }
    }

    method ClosestInLeafsets(dst: Addr, ref: Option<Addr>, minLevel: nat) returns (l: Entry, r: Entry)
      requires Valid() && |dst| == |self.addr| && (ref.Some? ==> |ref.value| == |dst|)
      ensures l == Closest(dst, Model().left, ref, minLevel, self)
      ensures r == Closest(dst, Model().right, ref, minLevel, self)
    {
      l := FindClosest(dst, left[..], ref, minLevel, self);
      r := FindClosest(dst, right[..], ref, minLevel, self);
    }

    method LeafsetRoute(dst: Addr) returns (nexthop: Entry)
      requires Valid() && |dst| == |self.addr|
      ensures nexthop == SettleSelf(Model(), LeafsetPick(Model(), dst))
    {
      var l, r := ClosestInLeafsets(dst, None, 0);
      assert [self, l, r] == LeafsetBests(Model(), dst);
      nexthop := FindClosest(dst, [self, l, r], None, 0, self);
      nexthop := Settle(nexthop);
    }

    method BestAnswerRoute(dst: Addr, level: nat) returns (nexthop: Entry)
      requires Valid() && |dst| == |self.addr| && level == Level(self.addr, dst) < table.Length0
      ensures nexthop == SettleSelf(Model(), AnswerPick(Model(), dst))
    {
      var row := ReadRow(level);
      var c := FindClosest(dst, row, None, 0, self);
      var l, r := ClosestInLeafsets(dst, Some(self.addr), level);
      assert [self, c, l, r] == AnswerBests(Model(), dst);
      nexthop := FindClosest(dst, [self, c, l, r], None, 0, self);
      nexthop := Settle(nexthop);
    }

    /** Away from the leafsets: the table entry, or the best answer when its slot is empty. */
    method TableRoute(dst: Addr) returns (nexthop: Entry)
      requires Valid() && |dst| == |self.addr|
      ensures nexthop == NextHopWith(Model(), dst, false)
    {
      ghost var s := Model();
      NextHopCases(s, dst, false);
      var level, column := Index(self.addr, dst);
      if level >= table.Length0 || column >= COLUMNS {
        return self.(isSet := false);
      }
      assert table[level, column] == s.table[level][column];
      if table[level, column].isSet {
        return table[level, column];
      }
      nexthop := BestAnswerRoute(dst, level);
    }

    method FindNextHop(dst: Addr, beyond: Beyond) returns (nexthop: Entry)
      requires Valid() && Fits(Model(), dst, beyond)
      ensures nexthop == NextHop(Model(), dst, beyond)
    {
      var inRange := IsOnRange(dst, beyond);
      NextHopCases(Model(), dst, inRange);
      if inRange {
        nexthop := LeafsetRoute(dst);
      } else {
        nexthop := TableRoute(dst);
      }
    }

    //// Queries

    method LeafsetGet(position: int) returns (e: Entry)
      requires Valid() && -left.Length <= position <= right.Length
      ensures e == LeafAt(Model(), position)
      ensures position > 0 ==> e == right[position - 1]
      ensures position < 0 ==> e == left[-position - 1]
      ensures position == 0 ==> e == self
    {
      if position > 0 {
        e := right[position - 1];
      } else if position < 0 {
        e := left[-position - 1];
      } else {
        e := self;
      }
    }

    /** Appends the entry's record unless it is not wanted; true when it had no slot to go to. */
    method Append(buffer: array<Record>, len: nat, e: Entry, r: Record) returns (over: bool, len': nat)
      requires len <= buffer.Length
      modifies buffer
      ensures over <==> e.isSet && len == buffer.Length
      ensures !over ==> len' <= buffer.Length
                        && buffer[..len'] == old(buffer[..len]) + if Wanted(e) then [r] else []
    {
      over, len' := false, len;
      if e.isSet {
        if len == buffer.Length {
          return true, len;
        }
        if Serialisable(e) {
          buffer[len] := r;
          len' := len + 1;
        }
      }
    }

    /** The inner loop of a table query: one level, column by column. */
    method ScanLevel(l: nat, buffer: array<Record>, start: nat, ghost rs: seq<Record>, ghost at: nat)
      returns (over: bool, len: nat)
      requires Valid() && l < table.Length0 && start <= buffer.Length && at + COLUMNS <= |rs|
      requires forall c :: 0 <= c < COLUMNS ==> rs[at + c] == TableRecord(l, c, table[l, c])
      requires Scanned(rs, at, buffer.Length, buffer[..start])
      modifies buffer
      ensures over ==> Overruns(rs, buffer.Length)
      ensures !over ==> len <= buffer.Length && Scanned(rs, at + COLUMNS, buffer.Length, buffer[..len])
    {
      var c := 0;
      over, len := false, start;
      while c < COLUMNS
        invariant c <= COLUMNS && len <= buffer.Length
        invariant Scanned(rs, at + c, buffer.Length, buffer[..len])
      {
        var r := TableRecord(l, c, table[l, c]);
        assert rs[at + c] == r;
        ScanStep(rs, at + c, buffer.Length, buffer[..len]);
        over, len := Append(buffer, len, r.entry, r);
        if over {
          return;
        }
        c := c + 1;
      }
    }

    /** rs, which starts at level lMin, holds level l's records in their place. */
    ghost predicate LevelAt(rs: seq<Record>, lMin: nat, l: nat)
      requires lMin <= l < table.Length0 && table.Length1 == COLUMNS
      reads table
    {
      var at := (l - lMin) * COLUMNS;
      at + COLUMNS <= |rs| && forall c :: 0 <= c < COLUMNS ==> rs[at + c] == TableRecord(l, c, table[l, c])
    }

    /** The outer loop of a table query, over levels lMin to lMax. */
    method ScanLevels(lMin: nat, lMax: nat, buffer: array<Record>, ghost rs: seq<Record>) returns (over: bool, len: nat)
      requires Valid() && lMin <= lMax < table.Length0 && |rs| == (lMax - lMin + 1) * COLUMNS
      requires forall l :: lMin <= l <= lMax ==> LevelAt(rs, lMin, l)
      modifies buffer
      ensures over <==> Overruns(rs, buffer.Length)
      ensures !over ==> len <= buffer.Length && buffer[..len] == Pick(rs)
    {
      var l := lMin;
      over, len := false, 0;
      while l <= lMax
        invariant lMin <= l <= lMax + 1 && len <= buffer.Length
        invariant Scanned(rs, (l - lMin) * COLUMNS, buffer.Length, buffer[..len])
      {
        assert LevelAt(rs, lMin, l);
        over, len := ScanLevel(l, buffer, len, rs, (l - lMin) * COLUMNS);
        if over {
          return;
        }
        l := l + 1;
      }
      AllScanned(rs, buffer.Length, buffer[..len]);
    }

    lemma TableInRange(lMin: nat, lMax: nat)
      requires Valid() && lMin <= lMax < table.Length0
      ensures forall l :: lMin <= l <= lMax ==> LevelAt(TableRange(Model(), lMin, lMax), lMin, l)
    {
      ghost var s := Model();
      forall l | lMin <= l <= lMax ensures LevelAt(TableRange(s, lMin, lMax), lMin, l) {
        forall c | 0 <= c < COLUMNS
          ensures TableRange(s, lMin, lMax)[(l - lMin) * COLUMNS + c] == TableRecord(l, c, table[l, c])
        {
          TableCell(s, lMin, lMax, l, c);
          assert s.table[l][c] == table[l, c];
        }
      }
    }

    method ListTable(lMin: nat, lMax: nat) returns (answer: Answer)
      requires Valid() && lMin <= lMax < table.Length0
      ensures var rs := TableRange(Model(), lMin, lMax);
              answer == if Overruns(rs, (lMax - lMin) * COLUMNS + 1) then Overrun else Listed(Pick(rs))
    {
      ghost var rs := TableRange(Model(), lMin, lMax);
      TableInRange(lMin, lMax);
      var buffer := new Record[(lMax - lMin) * COLUMNS + 1](_ => LeafRecord(0, Blank(0)));
      var over, len := ScanLevels(lMin, lMax, buffer, rs);
      assert TableRange(Model(), lMin, lMax) == rs;
      answer := if over then Overrun else Listed(buffer[..len]);
    }

    /** Lists table levels lMin to lMax; one slot and all rows but one are allocated. */
    method QueryTable(lMin: nat, lMax: nat) returns (answer: Answer)
      requires Valid()
      ensures answer == Refused <==> lMin >= table.Length0 || lMax >= table.Length0 || lMax < lMin
      ensures answer != Refused ==>
                var rs, slots := TableRange(Model(), lMin, lMax), (lMax - lMin) * COLUMNS + 1;
                answer == if Overruns(rs, slots) then Overrun else Listed(Pick(rs))
    {
      if lMin >= table.Length0 || lMax >= table.Length0 || lMax < lMin {
        return Refused;
      }
      answer := ListTable(lMin, lMax);
    }

    /** The loop of a leafset query; a slot per position is never overrun. */
    method ScanPositions(pMin: int, pMax: int, buffer: array<Record>, ghost rs: seq<Record>) returns (len: nat)
      requires Valid() && -left.Length <= pMin <= pMax <= right.Length
      requires rs == LeafRange(Model(), pMin, pMax) && buffer.Length == |rs|
      modifies buffer
      ensures len <= buffer.Length && buffer[..len] == Pick(rs)
    {
      RangeSizedNeverOverruns(rs, buffer.Length);
      len := 0;
      var p := pMin;
      while p <= pMax
        invariant pMin <= p <= pMax + 1 && len <= buffer.Length
        invariant Scanned(rs, p - pMin, buffer.Length, buffer[..len])
      {
        ScanStep(rs, p - pMin, buffer.Length, buffer[..len]);
        var e := LeafsetGet(p);
        assert rs[p - pMin] == LeafRecord(p, e);
        var over;
        over, len := Append(buffer, len, e, LeafRecord(p, e));
        assert !over;
        p := p + 1;
      }
      AllScanned(rs, buffer.Length, buffer[..len]);
    }

    /** Lists leafset positions pMin to pMax, with a slot for each. */
    method QueryLeafset(pMin: int, pMax: int) returns (answer: Answer)
      requires Valid()
      ensures answer == Refused <==> pMin < -left.Length || pMax > left.Length || pMax < pMin
      ensures answer != Refused ==> answer == Listed(Pick(LeafRange(Model(), pMin, pMax)))
    {
      if pMin < -left.Length || pMax > left.Length || pMax < pMin {
        return Refused;
      }
      ghost var rs := LeafRange(Model(), pMin, pMax);
      var buffer := new Record[pMax - pMin + 1](_ => LeafRecord(0, Blank(0)));
      assert LeafRange(Model(), pMin, pMax) == rs;
      var len := ScanPositions(pMin, pMax, buffer, rs);
      assert LeafRange(Model(), pMin, pMax) == rs;
      return Listed(buffer[..len]);
    }
  }
}
