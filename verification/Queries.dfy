/** Query answers over a routing state. */
module Queries {
  import opened Entries
  import opened RouterStates

  /** An entry and the coordinates it is found at. */
  datatype Record = TableRecord(level: nat, column: nat, entry: Entry)
                  | LeafRecord(position: int, entry: Entry)

  /** Refused: bad bounds. Overrun: an entry was written past the allocated ones. */
  datatype Answer = Refused | Overrun | Listed(records: seq<Record>)

  predicate Serialisable(e: Entry) {
    e.net != Unspecified
  }

  predicate Wanted(e: Entry) {
    e.isSet && Serialisable(e)
  }

  //// Where a query looks

  /** Every slot of table levels lMin to lMax, row by row. */
  function TableRange(s: State, lMin: nat, lMax: nat): (rs: seq<Record>)
    requires Shape(s) && lMin <= lMax < |s.table|
    ensures |rs| == (lMax - lMin + 1) * COLUMNS
  {
    seq((lMax - lMin + 1) * COLUMNS, i requires 0 <= i < (lMax - lMin + 1) * COLUMNS =>
      var l, c := lMin + i / COLUMNS, i % COLUMNS;
      TableRecord(l, c, s.table[l][c]))
  }

  lemma TableCell(s: State, lMin: nat, lMax: nat, l: nat, c: nat)
    requires Shape(s) && lMin <= l <= lMax < |s.table| && c < COLUMNS
    ensures (l - lMin) * COLUMNS + c < |TableRange(s, lMin, lMax)|
    ensures TableRange(s, lMin, lMax)[(l - lMin) * COLUMNS + c] == TableRecord(l, c, s.table[l][c])
  {
    var i := (l - lMin) * COLUMNS + c;
    assert i / COLUMNS == l - lMin && i % COLUMNS == c;
  }

  /** The leafset getter: right leaves at positive positions, left ones at negative, self at 0. */
  function LeafAt(s: State, p: int): Entry
    requires Shape(s) && -|s.left| <= p <= |s.right|
  {
    if p > 0 then s.right[p - 1] else if p < 0 then s.left[-p - 1] else s.self
  }

  function LeafRange(s: State, pMin: int, pMax: int): (rs: seq<Record>)
    requires Shape(s) && -|s.left| <= pMin <= pMax <= |s.right|
    ensures |rs| == pMax - pMin + 1
  {
    seq(pMax - pMin + 1, i requires 0 <= i < pMax - pMin + 1 => LeafRecord(pMin + i, LeafAt(s, pMin + i)))
  }

  //// What it lists

  /** The wanted entries of a range, in order. */
  function Pick(rs: seq<Record>): (records: seq<Record>)
    ensures |records| <= |rs|
  {
    if rs == [] then []
    else
      var r := rs[|rs| - 1];
      Pick(rs[..|rs| - 1]) + if Wanted(r.entry) then [r] else []
  }

  /** at[j] is where the j-th listed record comes from. */
  ghost predicate ExactAt(rs: seq<Record>, records: seq<Record>, at: seq<nat>) {
    && |at| == |records|
    && (forall j :: 0 <= j < |at| ==>
          at[j] < |rs| && records[j] == rs[at[j]] && records[j].entry.isSet && records[j].entry.net != Unspecified)
    && (forall j, k :: 0 <= j < k < |at| ==> at[j] < at[k])
    && (forall i :: 0 <= i < |rs| && rs[i].entry.isSet && rs[i].entry.net != Unspecified ==> i in at)
  }

  lemma ExactExtends(rs: seq<Record>, m: nat, before: seq<nat>)
    requires m + 1 == |rs| && ExactAt(rs[..m], Pick(rs[..m]), before)
    ensures ExactAt(rs, Pick(rs), before + if Wanted(rs[m].entry) then [m] else [])
  {
    var at, records := before + if Wanted(rs[m].entry) then [m] else [], Pick(rs);
    forall j | 0 <= j < |at|
      ensures at[j] < |rs| && records[j] == rs[at[j]] && records[j].entry.isSet && records[j].entry.net != Unspecified
    {
      if j < |before| {
        assert records[j] == Pick(rs[..m])[j] == rs[..m][before[j]];
      }
    }
    forall i | 0 <= i < |rs| && rs[i].entry.isSet && rs[i].entry.net != Unspecified ensures i in at {
      if i < m {
        assert rs[..m][i] == rs[i];
        assert i in before;
      }
    }
  }

  /** Listed are, in position order and once each, precisely the set and serialisable entries. */
  lemma {:induction false} PickIsExact(rs: seq<Record>) returns (at: seq<nat>)
    ensures ExactAt(rs, Pick(rs), at)
  {
    at := [];
    if rs != [] {
      var m := |rs| - 1;
      at := PickIsExact(rs[..m]);
      ExactExtends(rs, m, at);
      at := at + if Wanted(rs[m].entry) then [m] else [];
    }
  }

  //// The allocation

  /** Slot i holds a set entry, reached with all the allocated ones already used. */
  ghost predicate OverrunsAt(rs: seq<Record>, slots: nat, i: nat)
    requires i < |rs|
  {
    rs[i].entry.isSet && |Pick(rs[..i])| >= slots
  }

  ghost predicate Overruns(rs: seq<Record>, slots: nat) {
    exists i :: 0 <= i < |rs| && OverrunsAt(rs, slots, i)
  }

  /** A slot for every position of the range is always enough. */
  lemma RangeSizedNeverOverruns(rs: seq<Record>, slots: nat)
    requires slots >= |rs|
    ensures !Overruns(rs, slots)
  {
    forall i | 0 <= i < |rs| ensures !OverrunsAt(rs, slots, i) {
      assert |Pick(rs[..i])| <= i;
    }
  }

  /** Entry i is set but cannot be serialised, and nothing wanted comes after it. */
  ghost predicate Straggler(rs: seq<Record>, i: int) {
    0 <= i < |rs| && rs[i].entry.isSet && forall j :: i <= j < |rs| ==> !Wanted(rs[j].entry)
  }

  lemma OverrunsSplits(rs: seq<Record>, slots: nat)
    requires rs != []
    ensures Overruns(rs, slots) <==> Overruns(rs[..|rs| - 1], slots) || OverrunsAt(rs, slots, |rs| - 1)
  {
    var m := |rs| - 1;
    forall i | 0 <= i < m ensures OverrunsAt(rs, slots, i) <==> OverrunsAt(rs[..m], slots, i) {
      assert rs[..m][..i] == rs[..i];
    }
    if Overruns(rs[..m], slots) {
      var i :| 0 <= i < m && OverrunsAt(rs[..m], slots, i);
      assert OverrunsAt(rs, slots, i);
    }
  }

  lemma StragglersSplit(rs: seq<Record>, before: seq<Record>)
    requires rs != [] && before == rs[..|rs| - 1]
    ensures (exists i :: Straggler(rs, i))
       <==> && !Wanted(rs[|rs| - 1].entry)
            && (rs[|rs| - 1].entry.isSet || exists i :: Straggler(before, i))
  {
    var m := |before|;
    if i :| Straggler(rs, i) {
      assert i < m ==> Straggler(before, i);
    }
    if !Wanted(rs[m].entry) {
      if rs[m].entry.isSet {
        assert Straggler(rs, m);
      } else if i :| Straggler(before, i) {
        assert forall j :: i <= j < m ==> !Wanted(before[j].entry);
        assert Straggler(rs, i);
      }
    }
  }

  /** The allocation is overrun iff more entries are wanted than it holds, or exactly as many and a
      set entry that cannot be serialised comes after the last of them. */
  lemma {:induction false} OverrunsIff(rs: seq<Record>, slots: nat)
    ensures Overruns(rs, slots)
       <==> |Pick(rs)| > slots || (|Pick(rs)| == slots && exists i :: Straggler(rs, i))
  {
    if rs != [] {
      var m := |rs| - 1;
      OverrunsIff(rs[..m], slots);
      OverrunsSplits(rs, slots);
      StragglersSplit(rs, rs[..m]);
    }
  }

  /** The first i slots have been scanned into records, all of them in their place. */
  ghost predicate Scanned(rs: seq<Record>, i: nat, slots: nat, records: seq<Record>) {
    && i <= |rs| && records == Pick(rs[..i]) && |records| <= slots
    && forall j :: 0 <= j < i ==> !OverrunsAt(rs, slots, j)
  }

  lemma ScanStep(rs: seq<Record>, i: nat, slots: nat, records: seq<Record>)
    requires Scanned(rs, i, slots, records) && i < |rs|
    ensures if rs[i].entry.isSet && |records| == slots then Overruns(rs, slots)
            else Scanned(rs, i + 1, slots, records + if Wanted(rs[i].entry) then [rs[i]] else [])
  {
    assert rs[..i + 1][..i] == rs[..i];
    assert OverrunsAt(rs, slots, i) <==> rs[i].entry.isSet && |records| >= slots;
  }

  lemma AllScanned(rs: seq<Record>, slots: nat, records: seq<Record>)
    requires Scanned(rs, |rs|, slots, records)
    ensures records == Pick(rs) && !Overruns(rs, slots)
  {
    assert rs[..|rs|] == rs;
  }

  /** Two adds next to each other in one table row, and a query for that row alone: the second
      entry is written past the single slot allocated. */
  lemma OneRowQueryOverruns(rs: seq<Record>, i: nat, j: nat)
    requires i < j < |rs| && Wanted(rs[i].entry) && Wanted(rs[j].entry)
    ensures Overruns(rs, 1)
  {
    WantedCounts(rs[..j], i);
    assert OverrunsAt(rs, 1, j);
  }

  lemma {:induction false} WantedCounts(rs: seq<Record>, i: nat)
    requires i < |rs| && Wanted(rs[i].entry)
    ensures |Pick(rs)| >= 1
  {
    if i < |rs| - 1 {
      WantedCounts(rs[..|rs| - 1], i);
    }
  }
}
