/** The versioned plan parameter buffer: padded rows with a cached size, growth, idle eviction. */
module PlanBuffer {
  import opened Values
  import opened PlanColumns

  datatype ParamValue = ParamValue(row: seq<Value>, rowSize: nat, stamp: int)
  type Table = seq<map<string, ParamValue>>

  datatype ReadResult<T> = Found(value: T) | Unchanged | InvalidIndex | ColumnNotFound | InvalidRow

  /** The cached size is one plus the last non-nil index of the whole padded row. */
  predicate WellFormed(v: ParamValue) {
    v.rowSize == RowSize(v.row)
  }

  ghost predicate AllWellFormed(t: Table) {
    forall i, c | 0 <= i < |t| && c in t[i] :: WellFormed(t[i][c])
  }

  function AbsValue(v: ParamValue): Column {
    Column(v.stamp, Trim(v.row))
  }

  function AbsMap(m: map<string, ParamValue>): Slot {
    map c | c in m :: AbsValue(m[c])
  }

  function AbsTable(t: Table): (s: seq<Slot>)
  {
    seq(|t|, i requires 0 <= i < |t| => AbsMap(t[i]))
  }

  /** The padded row of a column, empty if there is none. */
  function RowIn(m: map<string, ParamValue>, col: string): seq<Value> {
    if col in m then m[col].row else []
  }

  function KeepFresh(m: map<string, ParamValue>, bound: int, tick: int): map<string, ParamValue> {
    map c | c in m && !Idle(bound, m[c].stamp, tick) :: m[c]
  }

  lemma AbsPut(t: Table, idx: nat, col: string, v: ParamValue, data: seq<Value>)
    requires idx < |t| && Trim(v.row) == Trim(data)
    ensures AbsTable(t[idx := t[idx][col := v]]) == Put(AbsTable(t), idx, col, data, v.stamp)
  {
    assert AbsMap(t[idx][col := v]) == AbsMap(t[idx])[col := Column(v.stamp, Trim(data))];
  }

  lemma AbsKeepFresh(m: map<string, ParamValue>, bound: int, tick: int)
    ensures AbsMap(KeepFresh(m, bound, tick)) == FilterSlot(AbsMap(m), bound, tick)
  {}

  /** Padding with nils changes neither the size nor what is read. */
  lemma PaddedRow(data: seq<Value>, pad: nat)
    ensures RowSize(data + Nils(pad)) == RowSize(data)
    ensures Trim(data + Nils(pad)) == Trim(data)
  {
    TrimReads(data + Nils(pad), data);
    RowEndsAtItsSize(data);
    assert EndsAt(data + Nils(pad), RowSize(data));
    RowSizeIff(data + Nils(pad), RowSize(data));
  }

  /** Copying the old row into a longer one and writing a cell is the abstract cell write. */
  lemma GrownRow(row: seq<Value>, prior: seq<Value>, n: nat, value: Value, len: nat)
    requires n < len && |prior| <= len
    ensures var grown := (prior + Nils(len - |prior|))[n := value];
      Trim(grown) == Trim(WriteAt(Trim(prior), n, value))
  {
    var grown := (prior + Nils(len - |prior|))[n := value];
    TrimReads(prior, prior);
    forall i: nat ensures At(grown, i) == At(WriteAt(Trim(prior), n, value), i) {
      assert At(Trim(prior), i) == At(prior, i);
    }
    TrimReads(grown, WriteAt(Trim(prior), n, value));
  }

  method CalculateRowSize(row: seq<Value>) returns (size: nat)
    ensures size == RowSize(row)
  {
    var i := |row|;
    assert row[..i] == row;
    while i > 0
      invariant 0 <= i <= |row| && RowSize(row) == RowSize(row[..i])
    {
      if row[i - 1] != Nil {
        return i;
      }
      assert row[..i][..i - 1] == row[..i - 1];
      i := i - 1;
    }
    size := 0;
  }

  class Buffer {
    var table: Table
    const rowCap: nat
    const rowIdleSeq: int

    ghost predicate Valid()
      reads this
    {
      AllWellFormed(table)
    }

    function Abs(): (s: seq<Slot>)
      reads this
    {
      AbsTable(table)
    }

    constructor (count: int, rowInitCap: int, rowIdleSeq: int)
      ensures Valid() && this.rowIdleSeq == rowIdleSeq && rowCap == (if rowInitCap < 0 then 0 else rowInitCap)
      ensures Abs() == seq((if count < 0 then 1 else count) + 1, _ => map[])
    {
      rowCap := if rowInitCap < 0 then 0 else rowInitCap;
      this.rowIdleSeq := rowIdleSeq;
      table := seq((if count < 0 then 1 else count) + 1, _ => map[]);
    }

    /** Removes exactly the idle columns of every slot. */
    method DeleteIdle(tick: int)
      requires Valid()
      modifies `table
      ensures Valid() && |table| == |old(table)|
      ensures forall i | 0 <= i < |table| :: table[i] == KeepFresh(old(table)[i], rowIdleSeq, tick)
      ensures Abs() == Filter(old(Abs()), rowIdleSeq, tick)
    {
      ghost var t0 := table;
      if rowIdleSeq > 0 {
        for i := 0 to |table|
          invariant |table| == |t0|
          invariant forall k | 0 <= k < i :: table[k] == KeepFresh(t0[k], rowIdleSeq, tick)
          invariant forall k | i <= k < |t0| :: table[k] == t0[k]
        {
          var cols := table[i].Keys;
          while cols != {}
            invariant cols <= t0[i].Keys && |table| == |t0|
            invariant forall k | 0 <= k < |t0| && k != i :: table[k] == if k < i then KeepFresh(t0[k], rowIdleSeq, tick) else t0[k]
            invariant table[i] == map c | c in t0[i] && (c in cols || !Idle(rowIdleSeq, t0[i][c].stamp, tick)) :: t0[i][c]
            decreases |cols|
          {
            var col :| col in cols;
            if Idle(rowIdleSeq, table[i][col].stamp, tick) {
              table := table[i := table[i] - {col}];
            }
            cols := cols - {col};
          }
        }
      } else {
        assert forall i | 0 <= i < |table| :: table[i] == KeepFresh(t0[i], rowIdleSeq, tick);
      }
      forall i | 0 <= i < |table| ensures AbsMap(table[i]) == FilterSlot(AbsMap(t0[i]), rowIdleSeq, tick) {
        AbsKeepFresh(t0[i], rowIdleSeq, tick);
      }
    }

    method Set(idx: int, col: string, row: int, data: Value, tick: int) returns (ok: bool)
      requires Valid()
      modifies `table
      ensures Valid()
      ensures ok == Accepted(old(Abs()), SetCell(idx, col, row, data, tick)) == (0 <= idx < |old(table)| && row >= 0)
      ensures Abs() == Apply(old(Abs()), rowIdleSeq, SetCell(idx, col, row, data, tick))
      ensures ok ==>
        var len := |RowIn(KeepFresh(old(table)[idx], rowIdleSeq, tick), col)|;
        |RowIn(table[idx], col)| == if row < len then len else row + 1 + rowCap
    {
      if idx < 0 || idx >= |table| || row < 0 {
        return false;
      }
      DeleteIdle(tick);
      var v := if col in table[idx] then table[idx][col] else ParamValue([], 0, 0);
      ghost var was := v.row;
      v := WriteRow(v, row, data, tick);
      AbsPut(table, idx, col, v, WriteAt(Trim(was), row, data));
      table := table[idx := table[idx][col := v]];
      ok := true;
    }

    /** The value with one cell written, its row grown by the capacity if it was too short. */
    method WriteRow(value: ParamValue, row: nat, data: Value, tick: int) returns (v: ParamValue)
      ensures WellFormed(v) && v.stamp == tick
      ensures |v.row| == if row < |value.row| then |value.row| else row + 1 + rowCap
      ensures Trim(v.row) == Trim(WriteAt(Trim(value.row), row, data))
    {
      v := value;
      if |v.row| <= row {
        v := v.(row := v.row + Nils(row + 1 + rowCap - |v.row|));
      }
      GrownRow(v.row, value.row, row, data, |v.row|);
      assert v.row == value.row + Nils(|v.row| - |value.row|);
      v := v.(row := v.row[row := data]);
      var size := CalculateRowSize(v.row);
      v := v.(rowSize := size, stamp := tick);
    }

    method SetColsData(idx: int, col: string, data: seq<Value>, tick: int) returns (ok: bool)
      requires Valid()
      modifies `table
      ensures Valid()
      ensures ok == Accepted(old(Abs()), SetCols(idx, col, data, tick)) == (0 <= idx < |old(table)|)
      ensures Abs() == Apply(old(Abs()), rowIdleSeq, SetCols(idx, col, data, tick))
      ensures ok ==> |RowIn(table[idx], col)| == |data| + rowCap
    {
      if idx < 0 || idx >= |table| {
        return false;
      }
      DeleteIdle(tick);
      var row := data + Nils(rowCap);
      var size := CalculateRowSize(data);
      PaddedRow(data, rowCap);
      AbsPut(table, idx, col, ParamValue(row, size, tick), data);
      table := table[idx := table[idx][col := ParamValue(row, size, tick)]];
      ok := true;
    }

    /** Column `c` of the table, padded. */
    method ColumnRow(rows: seq<seq<Value>>, c: nat) returns (row: seq<Value>)
      ensures row == ColumnOf(rows, c) + Nils(rowCap)
    {
      row := Nils(|rows| + rowCap);
      for r := 0 to |rows|
        invariant |row| == |rows| + rowCap
        invariant forall k | 0 <= k < r :: row[k] == At(rows[k], c)
        invariant forall k | r <= k < |row| :: row[k] == Nil
      {
        if c < |rows[r]| {
          row := row[r := rows[r][c]];
        }
      }
    }

    method SetTable(idx: int, cols: seq<string>, rows: seq<seq<Value>>, tick: int) returns (ok: bool)
      requires Valid()
      modifies `table
      ensures Valid()
      ensures ok == Accepted(old(Abs()), PlanColumns.SetTable(idx, cols, rows, tick)) == (0 <= idx < |old(table)|)
      ensures Abs() == Apply(old(Abs()), rowIdleSeq, PlanColumns.SetTable(idx, cols, rows, tick))
      ensures ok ==> forall c | c in cols :: |RowIn(table[idx], c)| == |rows| + rowCap
    {
      if idx < 0 || idx >= |table| {
        return false;
      }
      DeleteIdle(tick);
      ghost var start := Abs();
      for c := 0 to |cols|
        invariant Valid() && |table| == |start|
        invariant Abs() == PutTable(start, idx, cols[..c], rows, tick)
        invariant forall k | k in cols[..c] :: |RowIn(table[idx], k)| == |rows| + rowCap
      {
        var row := ColumnRow(rows, c);
        assert row[..|rows|] == ColumnOf(rows, c);
        var size := CalculateRowSize(row[..|rows|]);
        PaddedRow(ColumnOf(rows, c), rowCap);
        AbsPut(table, idx, cols[c], ParamValue(row, size, tick), ColumnOf(rows, c));
        assert cols[..c + 1][..c] == cols[..c];
        table := table[idx := table[idx][cols[c] := ParamValue(row, size, tick)]];
      }
      assert cols[..|cols|] == cols;
      ok := true;
    }

    /** A stamp that is not newer reads as "no change" without error, before the row is even checked. */
    method Get(idx: int, col: string, row: int, tick: int) returns (r: ReadResult<Value>)
      requires Valid()
      ensures r == InvalidIndex <==> idx < 0 || idx >= |table|
      ensures 0 <= idx < |table| ==>
        && (r == ColumnNotFound <==> col !in Abs()[idx])
        && (r == Unchanged <==> col in Abs()[idx] && Abs()[idx][col].stamp <= tick)
        && (r.Found? <==> col in Abs()[idx] && Abs()[idx][col].stamp > tick && 0 <= row < |RowIn(table[idx], col)|)
        && (r.Found? ==> r.value == Cell(Abs(), idx, col, row))
        && (r == InvalidRow && row >= 0 ==> Cell(Abs(), idx, col, row) == Nil)
    {
      if idx < 0 || idx >= |table| {
        return InvalidIndex;
      }
      if col !in table[idx] {
        return ColumnNotFound;
      }
      var v := table[idx][col];
      if v.stamp <= tick {
        return Unchanged;
      }
      TrimReads(v.row, v.row);
      if row < 0 || row >= |v.row| {
        return InvalidRow;
      }
      assert At(Trim(v.row), row) == At(v.row, row);
      r := Found(v.row[row]);
    }

    /** The whole column when its stamp is newer than asked. */
    method GetColsData(idx: int, col: string, tick: int) returns (r: ReadResult<seq<Value>>)
      requires Valid()
      ensures r ==
        if idx < 0 || idx >= |table| then InvalidIndex
        else if col !in Abs()[idx] then ColumnNotFound
        else if Abs()[idx][col].stamp <= tick then Unchanged
        else Found(Abs()[idx][col].data)
    {
      if idx < 0 || idx >= |table| {
        return InvalidIndex;
      }
      if col !in table[idx] {
        return ColumnNotFound;
      }
      var v := table[idx][col];
      assert WellFormed(v);
      if v.stamp <= tick {
        return Unchanged;
      }
      r := Found(v.row[..v.rowSize]);
    }

    /** The largest number of columns of one slot that share one newer stamp. */
    method MaxColSizeOf(idx: nat, tick: int) returns (max: nat)
      requires idx < |table|
      ensures SlotSharing(Abs()[idx], tick, max)
    {
      var m := table[idx];
      ghost var a := Abs()[idx];
      var counts: map<int, nat> := map[];
      max := 0;
      var left := m.Keys;
      ghost var seen: Slot := map[];
      while left != {}
        invariant left <= m.Keys && (forall c :: c in seen <==> c in a && c !in left) && forall c | c in seen :: seen[c] == a[c]
        invariant Counted(seen, tick, counts, max)
        decreases |left|
      {
        var c :| c in left;
        left := left - {c};
        var v := m[c];
        CountOneMore(seen, tick, counts, max, c, a[c]);
        seen := seen[c := a[c]];
        if v.stamp > tick {
          counts := counts[v.stamp := (if v.stamp in counts then counts[v.stamp] else 0) + 1];
          if counts[v.stamp] > max {
            max := counts[v.stamp];
          }
        }
      }
      assert seen == a;
      assert SlotSharing(seen, tick, max);
    }

    method MaxRowSizeOf(idx: nat, tick: int) returns (max: nat)
      requires Valid() && idx < |table|
      ensures SlotLongest(Abs()[idx], tick, max)
    {
      var m := table[idx];
      ghost var a := AbsMap(m);
      max := 0;
      var left := m.Keys;
      while left != {}
        invariant left <= m.Keys
        invariant forall c | c in a && c !in left && a[c].stamp > tick :: |a[c].data| <= max
        invariant max > 0 ==> exists c | c in a && a[c].stamp > tick :: |a[c].data| == max
        decreases |left|
      {
        var c :| c in left;
        left := left - {c};
        assert WellFormed(m[c]);
        if m[c].stamp > tick && m[c].rowSize > max {
          max := m[c].rowSize;
          assert c in a && a[c].stamp > tick && |a[c].data| == max;
        }
      }
    }

    method MaxColSize(idx: int, tick: int) returns (ok: bool, max: nat)
      ensures ok == (0 <= idx < |table|)
      ensures ok ==> SlotSharing(Abs()[idx], tick, max)
    {
      max := 0;
      ok := 0 <= idx < |table|;
      if ok {
        max := MaxColSizeOf(idx, tick);
      }
    }

    method MaxRowSize(idx: int, tick: int) returns (ok: bool, max: nat)
      requires Valid()
      ensures ok == (0 <= idx < |table|)
      ensures ok ==> SlotLongest(Abs()[idx], tick, max)
    {
      max := 0;
      ok := 0 <= idx < |table|;
      if ok {
        max := MaxRowSizeOf(idx, tick);
      }
    }

    /** The sizes over all slots; every column that can be read fits. */
    method MaxSize(tick: int) returns (cols: nat, rows: nat)
      requires Valid()
      ensures MostSharing(Abs(), tick, cols) && Longest(Abs(), tick, rows)
      ensures forall i, c | 0 <= i < |Abs()| && c in Abs()[i] && Abs()[i][c].stamp > tick :: |Abs()[i][c].data| <= rows
    {
      cols, rows := 0, 0;
      for i := 0 to |table|
        invariant MostSharing(Abs()[..i], tick, cols) && Longest(Abs()[..i], tick, rows)
      {
        var c := MaxColSizeOf(i, tick);
        var r := MaxRowSizeOf(i, tick);
        OneMoreSlot(Abs(), i, tick, cols, c, rows, r);
        if c > cols {
          cols := c;
        }
        if r > rows {
          rows := r;
        }
      }
      assert Abs()[..|table|] == Abs();
    }
  }

  /** The running counts are exact for what has been seen. */
  ghost predicate Counted(seen: Slot, tick: int, counts: map<int, nat>, max: nat) {
    && (forall st | st > tick :: |Sharing(seen, st)| == if st in counts then counts[st] else 0)
    && SlotSharing(seen, tick, max)
  }

  lemma SeeOneMore(m: Slot, c: string, v: Column, st: int)
    requires c !in m
    ensures |Sharing(m[c := v], st)| == |Sharing(m, st)| + (if st == v.stamp then 1 else 0)
  {
    assert Sharing(m[c := v], st) == Sharing(m, st) + (if st == v.stamp then {c} else {});
  }

  lemma CountOneMore(seen: Slot, tick: int, counts: map<int, nat>, max: nat, c: string, v: Column)
    requires c !in seen && Counted(seen, tick, counts, max)
    ensures var n := (if v.stamp in counts then counts[v.stamp] else 0) + 1;
      if v.stamp > tick then Counted(seen[c := v], tick, counts[v.stamp := n], if n > max then n else max)
      else Counted(seen[c := v], tick, counts, max)
  {
    var n := |Sharing(seen, v.stamp)| + 1;
    forall st ensures |Sharing(seen[c := v], st)| == |Sharing(seen, st)| + (if st == v.stamp then 1 else 0) {
      SeeOneMore(seen, c, v, st);
    }
    MaxGrows(seen, seen[c := v], tick, max, v.stamp);
  }

  lemma MaxGrows(before: Slot, after: Slot, tick: int, max: nat, stamp: int)
    requires SlotSharing(before, tick, max)
    requires forall st :: |Sharing(after, st)| == |Sharing(before, st)| + (if st == stamp then 1 else 0)
    ensures var n := |Sharing(after, stamp)|;
      SlotSharing(after, tick, if stamp > tick && n > max then n else max)
  {}

  lemma OneMoreSlot(slots: seq<Slot>, i: nat, tick: int, cols: nat, c: nat, rows: nat, r: nat)
    requires i < |slots|
    requires MostSharing(slots[..i], tick, cols) && SlotSharing(slots[i], tick, c)
    requires Longest(slots[..i], tick, rows) && SlotLongest(slots[i], tick, r)
    ensures MostSharing(slots[..i + 1], tick, if c > cols then c else cols)
    ensures Longest(slots[..i + 1], tick, if r > rows then r else rows)
  {
    var a, s := slots[..i], slots[..i + 1];
    assert forall k | 0 <= k < i :: s[k] == a[k];
    if c > cols {
      var st :| st > tick && |Sharing(slots[i], st)| == c;
      assert s[i] == slots[i];
    } else if cols > 0 {
      var k, st :| 0 <= k < |a| && st > tick && |Sharing(a[k], st)| == cols;
      assert s[k] == a[k];
    }
    if r > rows {
      var x :| x in slots[i] && slots[i][x].stamp > tick && |slots[i][x].data| == r;
      assert s[i] == slots[i];
    } else if rows > 0 {
      var k, x :| 0 <= k < |a| && x in a[k] && a[k][x].stamp > tick && |a[k][x].data| == rows;
      assert s[k] == a[k];
    }
  }
}
