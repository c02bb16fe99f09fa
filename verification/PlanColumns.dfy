/** The abstract store of plan parameters: for each slot and column a stamp and a row without trailing nils. */
module PlanColumns {
  import Int64
  import opened Values

  datatype Column = Column(stamp: int, data: seq<Value>)
  type Slot = map<string, Column>

  datatype Op =
    | SetCell(idx: int, col: string, row: int, value: Value, tick: int)
    | SetCols(idx: int, col: string, data: seq<Value>, tick: int)
    | SetTable(idx: int, cols: seq<string>, rows: seq<seq<Value>>, tick: int)

  /** Whether a write at `tick` evicts a column stamped `stamp`; the difference is taken in 64 bits. */
  predicate Idle(bound: int, stamp: int, tick: int) {
    bound > 0 && tick > stamp && Int64.Wrap(tick - stamp) > bound
  }

  /** The 64-bit test is the intended one unless the difference itself overflows. */
  lemma IdleIffOlderThanBound(bound: int, stamp: int, tick: int)
    requires Int64.Fits(stamp) && Int64.Fits(tick) && bound > 0
    ensures Int64.Fits(tick - stamp) ==> (Idle(bound, stamp, tick) <==> tick - stamp > bound)
    ensures !Int64.Fits(tick - stamp) ==> !Idle(bound, stamp, tick)
  {}

  function FilterSlot(m: Slot, bound: int, tick: int): Slot {
    map c | c in m && !Idle(bound, m[c].stamp, tick) :: m[c]
  }

  function Filter(slots: seq<Slot>, bound: int, tick: int): (f: seq<Slot>)
  {
    seq(|slots|, i requires 0 <= i < |slots| => FilterSlot(slots[i], bound, tick))
  }

  function Put(slots: seq<Slot>, idx: nat, col: string, data: seq<Value>, tick: int): seq<Slot>
    requires idx < |slots|
  {
    slots[idx := slots[idx][col := Column(tick, Trim(data))]]
  }

  /** The row with `value` at `row`, grown with nils where needed. */
  function WriteAt(data: seq<Value>, row: nat, value: Value): seq<Value> {
    (if row < |data| then data else data + Nils(row + 1 - |data|))[row := value]
  }

  /** Column `c` of a table whose rows may be short. */
  function ColumnOf(rows: seq<seq<Value>>, c: nat): seq<Value> {
    seq(|rows|, r requires 0 <= r < |rows| => At(rows[r], c))
  }

  function PutTable(slots: seq<Slot>, idx: nat, cols: seq<string>, rows: seq<seq<Value>>, tick: int): (s: seq<Slot>)
    requires idx < |slots|
    ensures |s| == |slots|
  {
    if cols == [] then slots
    else
      var n := |cols| - 1;
      Put(PutTable(slots, idx, cols[..n], rows, tick), idx, cols[n], ColumnOf(rows, n), tick)
  }

  predicate Accepted(slots: seq<Slot>, op: Op) {
    0 <= op.idx < |slots| && (op.SetCell? ==> op.row >= 0)
  }

  /** A rejected operation changes nothing; an accepted one first evicts every idle column. */
  function Apply(slots: seq<Slot>, bound: int, op: Op): (s: seq<Slot>)
    ensures |s| == |slots|
  {
    if !Accepted(slots, op) then slots
    else
      var f := Filter(slots, bound, op.tick);
      match op
      case SetCell(idx, col, row, value, q) =>
        Put(f, idx, col, WriteAt(if col in f[idx] then f[idx][col].data else [], row, value), q)
      case SetCols(idx, col, data, q) => Put(f, idx, col, data, q)
      case SetTable(idx, cols, rows, q) => PutTable(f, idx, cols, rows, q)
  }

  function ApplyAll(slots: seq<Slot>, bound: int, ops: seq<Op>): (s: seq<Slot>)
    ensures |s| == |slots|
  {
    if ops == [] then slots
    else Apply(ApplyAll(slots, bound, ops[..|ops| - 1]), bound, ops[|ops| - 1])
  }

  // ---------------------------------------------------------------- what a read sees

  /** Cell (idx, col, row), nil when the column or the cell is missing. */
  function Cell(slots: seq<Slot>, idx: nat, col: string, row: nat): Value
    requires idx < |slots|
  {
    if col in slots[idx] then At(slots[idx][col].data, row) else Nil
  }

  predicate Touches(op: Op, idx: nat, col: string) {
    op.idx == idx && if op.SetTable? then col in op.cols else op.col == col
  }

  /** A cell write changes its cell and no other cell of the column that survived eviction. */
  lemma SetCellReads(slots: seq<Slot>, bound: int, op: Op, row: nat)
    requires op.SetCell? && Accepted(slots, op)
    ensures var s, f := Apply(slots, bound, op), Filter(slots, bound, op.tick);
      && op.col in s[op.idx] && s[op.idx][op.col].stamp == op.tick
      && Cell(s, op.idx, op.col, row) == if row == op.row then op.value else Cell(f, op.idx, op.col, row)
  {
    var f: seq<Slot> := Filter(slots, bound, op.tick);
    var data: seq<Value> := if op.col in f[op.idx] then f[op.idx][op.col].data else [];
    TrimReads(WriteAt(data, op.row, op.value), data);
    assert At(WriteAt(data, op.row, op.value), row) == if row == op.row then op.value else At(data, row);
  }

  /** A table write stores column k of the table under its k-th name; of equal names the last one counts, and
      cells missing from short rows read as nil. */
  lemma {:induction false} PutTableReads(slots: seq<Slot>, idx: nat, cols: seq<string>, rows: seq<seq<Value>>,
      tick: int, k: nat)
    requires idx < |slots| && k < |cols| && cols[k] !in cols[k + 1..]
    ensures var s := PutTable(slots, idx, cols, rows, tick);
      cols[k] in s[idx] && s[idx][cols[k]] == Column(tick, Trim(ColumnOf(rows, k)))
    decreases |cols|
  {
    var n := |cols| - 1;
    if k < n {
      assert cols[k + 1..] == cols[..n][k + 1..] + [cols[n]];
      PutTableReads(slots, idx, cols[..n], rows, tick, k);
      assert cols[n] in cols[k + 1..];
    }
  }

  /** A write leaves every column it does not name alone, except that idle ones are gone. */
  lemma {:induction false} PutTableFrame(slots: seq<Slot>, idx: nat, cols: seq<string>, rows: seq<seq<Value>>,
      tick: int, i: nat, col: string)
    requires idx < |slots| && i < |slots| && (i != idx || col !in cols)
    ensures var s := PutTable(slots, idx, cols, rows, tick);
      && (col in s[i] <==> col in slots[i])
      && (col in s[i] ==> s[i][col] == slots[i][col])
    decreases |cols|
  {
    if cols != [] {
      assert cols[|cols| - 1] in cols;
      PutTableFrame(slots, idx, cols[..|cols| - 1], rows, tick, i, col);
    }
  }

  /** A column write stores its data from the first row on, nil past the end, under the new stamp. */
  lemma SetColsReads(slots: seq<Slot>, bound: int, op: Op, row: nat)
    requires op.SetCols? && Accepted(slots, op)
    ensures var s := Apply(slots, bound, op);
      && op.col in s[op.idx] && s[op.idx][op.col].stamp == op.tick
      && Cell(s, op.idx, op.col, row) == if row < |op.data| then op.data[row] else Nil
  {
    TrimReads(op.data, op.data);
    assert At(Trim(op.data), row) == At(op.data, row);
  }

  /** So does a table write for each of its columns, under the last of equal names; cells missing from short rows are nil. */
  lemma SetTableReads(slots: seq<Slot>, bound: int, op: Op, k: nat, row: nat)
    requires op.SetTable? && Accepted(slots, op) && k < |op.cols| && op.cols[k] !in op.cols[k + 1..]
    ensures var s := Apply(slots, bound, op);
      && op.cols[k] in s[op.idx] && s[op.idx][op.cols[k]].stamp == op.tick
      && Cell(s, op.idx, op.cols[k], row) ==
           if row < |op.rows| && k < |op.rows[row]| then op.rows[row][k] else Nil
  {
    PutTableReads(Filter(slots, bound, op.tick), op.idx, op.cols, op.rows, op.tick, k);
    TrimReads(ColumnOf(op.rows, k), ColumnOf(op.rows, k));
    assert At(Trim(ColumnOf(op.rows, k)), row) == At(ColumnOf(op.rows, k), row);
  }

  /** An accepted write leaves every column it does not name as it was, or evicts it if it is idle; it makes no other. */
  lemma WriteFrame(slots: seq<Slot>, bound: int, op: Op, i: nat, col: string)
    requires Accepted(slots, op) && i < |slots| && !Touches(op, i, col)
    ensures var s := Apply(slots, bound, op);
      && (col in s[i] <==> col in slots[i] && !Idle(bound, slots[i][col].stamp, op.tick))
      && (col in s[i] ==> s[i][col] == slots[i][col])
  {
    if op.SetTable? {
      PutTableFrame(Filter(slots, bound, op.tick), op.idx, op.cols, op.rows, op.tick, i, col);
    }
  }

  /** A column that a run does not write stays, unchanged, exactly if no accepted write of the run found it idle. */
  lemma {:induction false} UntouchedColumnStaysIff(slots: seq<Slot>, bound: int, ops: seq<Op>, idx: nat, col: string)
    requires idx < |slots| && col in slots[idx]
    requires forall k | 0 <= k < |ops| :: !Touches(ops[k], idx, col)
    ensures var s := ApplyAll(slots, bound, ops);
      && (col in s[idx] <==> forall k | 0 <= k < |ops| && Accepted(slots, ops[k]) :: !Idle(bound, slots[idx][col].stamp, ops[k].tick))
      && (col in s[idx] ==> s[idx][col] == slots[idx][col])
    decreases |ops|
  {
    if ops != [] {
      var n := |ops| - 1;
      var before, op := ApplyAll(slots, bound, ops[..n]), ops[n];
      UntouchedColumnStaysIff(slots, bound, ops[..n], idx, col);
      assert forall k | 0 <= k < n :: ops[..n][k] == ops[k];
      if Accepted(before, op) && op.SetTable? {
        PutTableFrame(Filter(before, bound, op.tick), op.idx, op.cols, op.rows, op.tick, idx, col);
      }
    }
  }

  // ---------------------------------------------------------------- sizes

  /** The columns of a slot that carry one stamp. */
  function Sharing(m: Slot, stamp: int): set<string> {
    set c | c in m && m[c].stamp == stamp
  }

  /** `n` is the largest number of columns of the slot sharing one stamp newer than `tick`. */
  ghost predicate SlotSharing(m: Slot, tick: int, n: nat) {
    && (forall st | st > tick :: |Sharing(m, st)| <= n)
    && (n > 0 ==> exists st | st > tick :: |Sharing(m, st)| == n)
  }

  /** `n` is the longest row of a column newer than `tick`. */
  ghost predicate SlotLongest(m: Slot, tick: int, n: nat) {
    && (forall c | c in m && m[c].stamp > tick :: |m[c].data| <= n)
    && (n > 0 ==> exists c | c in m && m[c].stamp > tick :: |m[c].data| == n)
  }

  /** The same over all slots. */
  ghost predicate MostSharing(slots: seq<Slot>, tick: int, n: nat) {
    && (forall i, st | 0 <= i < |slots| && st > tick :: |Sharing(slots[i], st)| <= n)
    && (n > 0 ==> exists i, st | 0 <= i < |slots| && st > tick :: |Sharing(slots[i], st)| == n)
  }

  ghost predicate Longest(slots: seq<Slot>, tick: int, n: nat) {
    && (forall i, c | 0 <= i < |slots| && c in slots[i] && slots[i][c].stamp > tick :: |slots[i][c].data| <= n)
    && (n > 0 ==> exists i, c | 0 <= i < |slots| && c in slots[i] && slots[i][c].stamp > tick :: |slots[i][c].data| == n)
  }

  /** The sizes do not depend on any iteration order, and asking for newer data never makes them larger. */
  lemma SizesShrinkWithSeq(slots: seq<Slot>, q1: int, q2: int, c1: nat, c2: nat, r1: nat, r2: nat)
    requires q1 <= q2
    requires MostSharing(slots, q1, c1) && MostSharing(slots, q2, c2)
    requires Longest(slots, q1, r1) && Longest(slots, q2, r2)
    ensures c2 <= c1 && r2 <= r1 && (q1 == q2 ==> c1 == c2 && r1 == r2)
  {}
}
