/** The first plan buffer: stamped row arrays that grow and shrink while a query result is stored row by row. */
module RowFill {
  import Int64
  import opened Listings
  import opened Options
  import opened Values

  datatype Entry = Entry(data: Value, stamp: int)
  type Cols = map<string, seq<Entry>>

  datatype Config = Config(rowCap: int, idleSec: int)

  const ZERO: Entry := Entry(Nil, 0)

  /** The 64-bit time bound of a buffer: a limit below 1 means 60. */
  function IdleBound(cfg: Config): int {
    Int64.Wrap(1_000_000_000 * if cfg.idleSec <= 0 then 60 else cfg.idleSec)
  }

  predicate Stale(cfg: Config, last: Entry, tick: int) {
    Int64.Wrap(tick - last.stamp) > IdleBound(cfg)
  }

  /** A new array of length `n` with the old entries copied into it. */
  function Copied(es: seq<Entry>, n: nat): (r: seq<Entry>)
  {
    if n <= |es| then es[..n] else es + seq(n - |es|, _ => ZERO)
  }

  /** The length the array is given before row `row` is written. */
  function NewLength(cfg: Config, es: seq<Entry>, row: nat, tick: int): int {
    if |es| <= row then |es| + cfg.rowCap
    else if Stale(cfg, es[|es| - 1], tick) then row + cfg.rowCap
    else |es|
  }

  /** Writing a row; None is the run-time panic of a negative length or an index out of range. */
  function SetEntry(cfg: Config, es: seq<Entry>, row: nat, value: Value, tick: int): Option<seq<Entry>> {
    var n := NewLength(cfg, es, row, tick);
    if n < 0 || row >= n then None else Some(Copied(es, n)[row := Entry(value, tick)])
  }

  function ColumnIn(m: Cols, col: string): seq<Entry> {
    if col in m then m[col] else []
  }

  datatype GetResult = Got(value: Value) | OutLen | GetPanic

  function Get(m: seq<Cols>, idx: int, col: string, row: int, tick: int): GetResult {
    if |m| <= idx then Got(Nil)
    else if idx < 0 then GetPanic
    else if |ColumnIn(m[idx], col)| <= row then OutLen
    else if row < 0 then GetPanic
    else
      var e := ColumnIn(m[idx], col)[row];
      Got(if e.stamp > tick then Nil else e.data)
  }

  datatype SetResult = Done(m: seq<Cols>) | Overflow | NotMatching | Panic

  function Set(cfg: Config, m: seq<Cols>, idx: int, col: string, row: int, value: Value, tick: int): SetResult {
    if |m| <= idx then Overflow
    else if idx < 0 || row < 0 then Panic
    else
      var es := SetEntry(cfg, ColumnIn(m[idx], col), row, value, tick);
      if es.None? then Panic else Done(m[idx := m[idx][col := es.value]])
  }

  /** Stores the values of row `r` under the column names, left to right. */
  function FillRow(cfg: Config, m: seq<Cols>, idx: int, cols: seq<string>, values: seq<Value>, r: nat,
      tick: int): SetResult {
    if values == [] then Done(m)
    else
      var n := |values| - 1;
      var before := FillRow(cfg, m, idx, cols, values[..n], r, tick);
      if !before.Done? then before
      else if n >= |cols| then Panic
      else Set(cfg, before.m, idx, cols[n], r, values[n], tick)
  }

  function FillRows(cfg: Config, m: seq<Cols>, idx: int, cols: seq<string>, rows: seq<seq<Value>>,
      tick: int): SetResult {
    if rows == [] then Done(m)
    else
      var n := |rows| - 1;
      var before := FillRows(cfg, m, idx, cols, rows[..n], tick);
      if !before.Done? then before else FillRow(cfg, before.m, idx, cols, rows[n], n, tick)
  }

  /** `allocCurrentDataToState`: only the first row is compared with the column names. */
  function Alloc(cfg: Config, m: seq<Cols>, idx: int, rows: seq<seq<Value>>, cols: seq<string>, tick: int): SetResult {
    if rows == [] then Done(m)
    else if |rows[0]| != |cols| then NotMatching
    else FillRows(cfg, m, idx, cols, rows, tick)
  }

  // ---------------------------------------------------------------- one cell

  /** The array cannot be grown past the row, or it is rebuilt with no room for it. */
  predicate NoRoom(cfg: Config, es: seq<Entry>, row: nat, tick: int) {
    if |es| <= row then |es| + cfg.rowCap <= row else Stale(cfg, es[|es| - 1], tick) && cfg.rowCap <= 0
  }

  /** Exactly when a write panics. */
  lemma SetPanicsIff(cfg: Config, es: seq<Entry>, row: nat, value: Value, tick: int)
    ensures SetEntry(cfg, es, row, value, tick) == None <==> NoRoom(cfg, es, row, tick)
  {}

  /** With a positive capacity the next row always fits, and the rows before it survive growing and shrinking. */
  lemma SetKeepsEarlierRows(cfg: Config, es: seq<Entry>, row: nat, value: Value, tick: int)
    requires cfg.rowCap >= 1 && row <= |es|
    ensures var r := SetEntry(cfg, es, row, value, tick);
      && r.Some? && row < |r.value| && r.value[row] == Entry(value, tick)
      && (forall i | 0 <= i < row :: r.value[i] == es[i])
      && (forall i | row < i < |r.value| :: r.value[i] == if i < |es| then es[i] else ZERO)
  {}

  /** When the last entry of an array makes the next write rebuild it: it is older than the limit in seconds, or 60 without
      a limit, taken as nanoseconds; where the difference of two 64-bit stamps overflows, a much older entry does not count
      as stale. */
  lemma StaleIff(cfg: Config, last: Entry, tick: int)
    requires Int64.Fits(tick) && Int64.Fits(last.stamp)
    requires Int64.Fits(1_000_000_000 * if cfg.idleSec <= 0 then 60 else cfg.idleSec)
    ensures var age, limit := tick - last.stamp, 1_000_000_000 * if cfg.idleSec <= 0 then 60 else cfg.idleSec;
      Stale(cfg, last, tick) <==>
        if age > Int64.MAX then false else if age < Int64.MIN then age + 0x1_0000_0000_0000_0000 > limit else age > limit
  {}

  /** The length a write gives an array. */
  lemma SetLength(cfg: Config, es: seq<Entry>, row: nat, value: Value, tick: int)
    requires SetEntry(cfg, es, row, value, tick).Some?
    ensures |SetEntry(cfg, es, row, value, tick).value| ==
      if |es| <= row then |es| + cfg.rowCap else if Stale(cfg, es[|es| - 1], tick) then row + cfg.rowCap else |es|
  {}

  /** How a write ends, and that it touches one array only. */
  lemma SetOutcome(cfg: Config, m: seq<Cols>, idx: int, col: string, row: int, value: Value, tick: int)
    ensures var r := Set(cfg, m, idx, col, row, value, tick);
      && (r == Overflow <==> |m| <= idx) && r != NotMatching
      && (r == Panic <==> idx < |m| && (idx < 0 || row < 0 || NoRoom(cfg, ColumnIn(m[idx], col), row, tick)))
      && (r.Done? ==>
            && |r.m| == |m| && (forall i | 0 <= i < |m| && i != idx :: r.m[i] == m[i])
            && (forall c | c != col :: (c in r.m[idx] <==> c in m[idx]) && ColumnIn(r.m[idx], c) == ColumnIn(m[idx], c))
            && row < |ColumnIn(r.m[idx], col)| && ColumnIn(r.m[idx], col)[row] == Entry(value, tick))
  {
    if 0 <= idx < |m| && row >= 0 {
      SetPanicsIff(cfg, ColumnIn(m[idx], col), row, value, tick);
    }
  }

  // ---------------------------------------------------------------- a whole result

  predicate Rectangular(rows: seq<seq<Value>>, width: nat) {
    forall r | 0 <= r < |rows| :: |rows[r]| == width
  }

  /** Column `c` of the slot holds the values of the rows, stamped `tick`. */
  ghost predicate Holds(m: Cols, cols: seq<string>, rows: seq<seq<Value>>, c: nat, tick: int)
    requires c < |cols| && Rectangular(rows, |cols|)
  {
    && |rows| <= |ColumnIn(m, cols[c])|
    && forall r | 0 <= r < |rows| :: ColumnIn(m, cols[c])[r] == Entry(rows[r][c], tick)
  }

  /** The slot after one row: each named column got its value. */
  ghost predicate RowStored(cfg: Config, m: Cols, f: Cols, cols: seq<string>, values: seq<Value>, r: nat, tick: int)
    requires |values| <= |cols|
  {
    forall c | 0 <= c < |values| :: cols[c] in f &&
      Some(ColumnIn(f, cols[c])) == SetEntry(cfg, ColumnIn(m, cols[c]), r, values[c], tick)
  }

  /** Every column that is not named stays. */
  ghost predicate OthersStay(m: Cols, f: Cols, names: seq<string>) {
    forall col | col !in names :: (col in f <==> col in m) && ColumnIn(f, col) == ColumnIn(m, col)
  }

  /** The same fills seen from the one slot they write to. */
  function FillRowIn(cfg: Config, m: Cols, cols: seq<string>, values: seq<Value>, r: nat, tick: int): Option<Cols> {
    if values == [] then Some(m)
    else
      var n := |values| - 1;
      var before := FillRowIn(cfg, m, cols, values[..n], r, tick);
      if before.None? || n >= |cols| then None
      else
        var es := SetEntry(cfg, ColumnIn(before.value, cols[n]), r, values[n], tick);
        if es.None? then None else Some(before.value[cols[n] := es.value])
  }

  function FillRowsIn(cfg: Config, m: Cols, cols: seq<string>, rows: seq<seq<Value>>, tick: int): Option<Cols> {
    if rows == [] then Some(m)
    else
      var n := |rows| - 1;
      var before := FillRowsIn(cfg, m, cols, rows[..n], tick);
      if before.None? then None else FillRowIn(cfg, before.value, cols, rows[n], n, tick)
  }

  lemma {:induction false} FillRowIsSlotwise(cfg: Config, m: seq<Cols>, idx: nat, cols: seq<string>,
      values: seq<Value>, r: nat, tick: int)
    requires idx < |m|
    ensures var f := FillRowIn(cfg, m[idx], cols, values, r, tick);
      FillRow(cfg, m, idx, cols, values, r, tick) == if f.None? then Panic else Done(m[idx := f.value])
    decreases |values|
  {
    if values != [] {
      FillRowIsSlotwise(cfg, m, idx, cols, values[..|values| - 1], r, tick);
    }
  }

  /** A fill only ever changes its own slot. */
  lemma {:induction false} FillIsSlotwise(cfg: Config, m: seq<Cols>, idx: nat, cols: seq<string>,
      rows: seq<seq<Value>>, tick: int)
    requires idx < |m|
    ensures var f := FillRowsIn(cfg, m[idx], cols, rows, tick);
      FillRows(cfg, m, idx, cols, rows, tick) == if f.None? then Panic else Done(m[idx := f.value])
    decreases |rows|
  {
    if rows != [] {
      var n := |rows| - 1;
      FillIsSlotwise(cfg, m, idx, cols, rows[..n], tick);
      var before := FillRowsIn(cfg, m[idx], cols, rows[..n], tick);
      if before.Some? {
        FillRowIsSlotwise(cfg, m[idx := before.value], idx, cols, rows[n], n, tick);
      }
    }
  }

  /** What one row does to its slot. */
  lemma {:induction false} FillRowSets(cfg: Config, m: Cols, cols: seq<string>, values: seq<Value>, r: nat, tick: int)
    requires cfg.rowCap >= 1 && Distinct(cols) && |values| <= |cols|
    requires forall c | 0 <= c < |values| :: r <= |ColumnIn(m, cols[c])|
    ensures var f := FillRowIn(cfg, m, cols, values, r, tick);
      && f.Some? && RowStored(cfg, m, f.value, cols, values, r, tick) && OthersStay(m, f.value, cols[..|values|])
    decreases |values|
  {
    if values != [] {
      var n := |values| - 1;
      FillRowSets(cfg, m, cols, values[..n], r, tick);
    }
  }

  /** Storing a rectangular result never panics, whatever the slot held before, and afterwards every cell is there,
      although each row may have grown or shrunk the arrays. */
  lemma {:induction false} FillSurvivesResizing(cfg: Config, m: Cols, cols: seq<string>, rows: seq<seq<Value>>,
      tick: int)
    requires cfg.rowCap >= 1 && Distinct(cols) && Rectangular(rows, |cols|)
    ensures var f := FillRowsIn(cfg, m, cols, rows, tick);
      && f.Some?
      && (forall c: nat | c < |cols| :: Holds(f.value, cols, rows, c, tick))
      && OthersStay(m, f.value, cols)
    decreases |rows|
  {
    if rows != [] {
      var n := |rows| - 1;
      FillSurvivesResizing(cfg, m, cols, rows[..n], tick);
      var before := FillRowsIn(cfg, m, cols, rows[..n], tick).value;
      forall c: nat | c < |cols| ensures n <= |ColumnIn(before, cols[c])| {
        assert Holds(before, cols, rows[..n], c, tick);
      }
      FillRowSets(cfg, before, cols, rows[n], n, tick);
      assert cols[..|cols|] == cols;
      var after := FillRowsIn(cfg, m, cols, rows, tick).value;
      forall c: nat | c < |cols| ensures Holds(after, cols, rows, c, tick) {
        HoldOneMore(cfg, before, after, cols, rows, c, tick);
      }
    }
  }

  lemma HoldOneMore(cfg: Config, before: Cols, after: Cols, cols: seq<string>, rows: seq<seq<Value>>, c: nat, tick: int)
    requires cfg.rowCap >= 1 && c < |cols| && rows != [] && Rectangular(rows, |cols|)
    requires Holds(before, cols, rows[..|rows| - 1], c, tick)
    requires RowStored(cfg, before, after, cols, rows[|rows| - 1], |rows| - 1, tick)
    ensures Holds(after, cols, rows, c, tick)
  {}

  /** Hence reading at that sequence gives back the result, cell by cell. */
  lemma AllocThenGet(cfg: Config, m: seq<Cols>, idx: nat, rows: seq<seq<Value>>, cols: seq<string>, tick: int)
    requires cfg.rowCap >= 1 && idx < |m| && Distinct(cols) && Rectangular(rows, |cols|)
    ensures var f := Alloc(cfg, m, idx, rows, cols, tick);
      && f.Done?
      && forall r, c | 0 <= r < |rows| && 0 <= c < |cols| :: Get(f.m, idx, cols[c], r, tick) == Got(rows[r][c])
  {
    FillSurvivesResizing(cfg, m[idx], cols, rows, tick);
    FillIsSlotwise(cfg, m, idx, cols, rows, tick);
    var f := Alloc(cfg, m, idx, rows, cols, tick);
    forall r, c | 0 <= r < |rows| && 0 <= c < |cols| ensures Get(f.m, idx, cols[c], r, tick) == Got(rows[r][c]) {
      assert Holds(f.m[idx], cols, rows, c, tick);
    }
  }

  // ---------------------------------------------------------------- without room

  /** A first value finds no room in an empty slot whose capacity is not positive. */
  lemma {:induction false} NoRoomForARow(cfg: Config, cols: seq<string>, values: seq<Value>, tick: int)
    requires cfg.rowCap <= 0 && values != []
    ensures FillRowIn(cfg, map[], cols, values, 0, tick).None?
    decreases |values|
  {
    if |values| > 1 {
      NoRoomForARow(cfg, cols, values[..|values| - 1], tick);
    }
  }

  lemma {:induction false} NoRoomForRows(cfg: Config, cols: seq<string>, rows: seq<seq<Value>>, tick: int)
    requires cfg.rowCap <= 0 && rows != [] && rows[0] != []
    ensures FillRowsIn(cfg, map[], cols, rows, tick).None?
    decreases |rows|
  {
    if |rows| > 1 {
      NoRoomForRows(cfg, cols, rows[..|rows| - 1], tick);
    } else {
      assert rows[..0] == [];
      NoRoomForARow(cfg, cols, rows[0], tick);
    }
  }

  /** With a positive capacity a row fits wherever the rows before it do, equal column names or not. */
  lemma {:induction false} RowFits(cfg: Config, m: Cols, cols: seq<string>, values: seq<Value>, r: nat, tick: int)
    requires cfg.rowCap >= 1 && |values| <= |cols|
    requires forall c | 0 <= c < |cols| :: r <= |ColumnIn(m, cols[c])|
    ensures var f := FillRowIn(cfg, m, cols, values, r, tick);
      && f.Some?
      && (forall c | 0 <= c < |cols| :: r <= |ColumnIn(f.value, cols[c])|)
      && (forall c | 0 <= c < |values| :: r < |ColumnIn(f.value, cols[c])|)
    decreases |values|
  {
    if values != [] {
      var n := |values| - 1;
      RowFits(cfg, m, cols, values[..n], r, tick);
      CellFits(cfg, FillRowIn(cfg, m, cols, values[..n], r, tick).value, cols, n, values[n], r, tick);
    }
  }

  lemma CellFits(cfg: Config, m: Cols, cols: seq<string>, n: nat, value: Value, r: nat, tick: int)
    requires cfg.rowCap >= 1 && n < |cols|
    requires forall c | 0 <= c < |cols| :: r <= |ColumnIn(m, cols[c])|
    requires forall c | 0 <= c < n :: r < |ColumnIn(m, cols[c])|
    ensures var es := SetEntry(cfg, ColumnIn(m, cols[n]), r, value, tick);
      && es.Some?
      && (forall c | 0 <= c < |cols| :: r <= |ColumnIn(m[cols[n] := es.value], cols[c])|)
      && (forall c | 0 <= c <= n :: r < |ColumnIn(m[cols[n] := es.value], cols[c])|)
  {
    SetKeepsEarlierRows(cfg, ColumnIn(m, cols[n]), r, value, tick);
    OtherColumnsStay(m, cols[n], SetEntry(cfg, ColumnIn(m, cols[n]), r, value, tick).value);
  }

  lemma OtherColumnsStay(m: Cols, col: string, es: seq<Entry>)
    ensures forall c :: ColumnIn(m[col := es], c) == if c == col then es else ColumnIn(m, c)
  {
    forall c ensures ColumnIn(m[col := es], c) == if c == col then es else ColumnIn(m, c) {}
  }

  lemma {:induction false} RowsFit(cfg: Config, m: Cols, cols: seq<string>, rows: seq<seq<Value>>, tick: int)
    requires cfg.rowCap >= 1 && Rectangular(rows, |cols|)
    ensures var f := FillRowsIn(cfg, m, cols, rows, tick);
      f.Some? && forall c | 0 <= c < |cols| :: |rows| <= |ColumnIn(f.value, cols[c])|
    decreases |rows|
  {
    if rows != [] {
      var n := |rows| - 1;
      RowsFit(cfg, m, cols, rows[..n], tick);
      RowFits(cfg, FillRowsIn(cfg, m, cols, rows[..n], tick).value, cols, rows[n], n, tick);
    }
  }

  /** Exactly when a whole result can be stored in an empty slot: the capacity, an optional setting that is 0 when it is
      missing, must be positive. */
  lemma EmptySlotTakesResultIff(cfg: Config, m: seq<Cols>, idx: nat, rows: seq<seq<Value>>, cols: seq<string>, tick: int)
    requires idx < |m| && m[idx] == map[] && rows != [] && cols != [] && Rectangular(rows, |cols|)
    ensures Alloc(cfg, m, idx, rows, cols, tick).Done? <==> cfg.rowCap >= 1
  {
    FillIsSlotwise(cfg, m, idx, cols, rows, tick);
    if cfg.rowCap >= 1 {
      RowsFit(cfg, map[], cols, rows, tick);
    } else {
      NoRoomForRows(cfg, cols, rows, tick);
    }
  }

  // ---------------------------------------------------------------- ragged results

  lemma {:induction false} RowNeverMismatches(cfg: Config, m: seq<Cols>, idx: int, cols: seq<string>, values: seq<Value>,
      r: nat, tick: int)
    ensures var f := FillRow(cfg, m, idx, cols, values, r, tick);
      && f != NotMatching && (f.Done? ==> |f.m| == |m|) && (f == Overflow ==> |m| <= idx)
      && (|m| <= idx && values != [] ==> f == if cols == [] then Panic else Overflow)
      && (|values| > |cols| ==> !f.Done?)
    decreases |values|
  {
    if values != [] {
      RowNeverMismatches(cfg, m, idx, cols, values[..|values| - 1], r, tick);
    }
  }

  lemma {:induction false} RowsNeverMismatch(cfg: Config, m: seq<Cols>, idx: int, cols: seq<string>, rows: seq<seq<Value>>,
      tick: int)
    ensures var f := FillRows(cfg, m, idx, cols, rows, tick);
      && f != NotMatching && (f.Done? ==> |f.m| == |m|) && (f == Overflow ==> |m| <= idx && cols != [])
      && (|m| <= idx && rows != [] && rows[0] != [] ==> f == if cols == [] then Panic else Overflow)
      && (f.Done? ==> forall r | 0 <= r < |rows| :: |rows[r]| <= |cols|)
    decreases |rows|
  {
    if rows != [] {
      var n := |rows| - 1;
      RowsNeverMismatch(cfg, m, idx, cols, rows[..n], tick);
      var before := FillRows(cfg, m, idx, cols, rows[..n], tick);
      if before.Done? {
        RowNeverMismatches(cfg, before.m, idx, cols, rows[n], n, tick);
        assert forall r | 0 <= r < n :: rows[..n][r] == rows[r];
      }
    }
  }

  /** How storing a result of any shape can end: only the first row is compared with the names, a missing slot is an error,
      and a later row longer than the names is a crash. */
  lemma AllocOutcome(cfg: Config, m: seq<Cols>, idx: int, rows: seq<seq<Value>>, cols: seq<string>, tick: int)
    ensures var f := Alloc(cfg, m, idx, rows, cols, tick);
      && (rows == [] ==> f == Done(m))
      && (f == NotMatching <==> rows != [] && |rows[0]| != |cols|)
      && (f == Overflow <==> rows != [] && |rows[0]| == |cols| && |m| <= idx && cols != [])
      && (rows != [] && |rows[0]| == |cols| && idx < |m| && (exists r :: 0 <= r < |rows| && |rows[r]| > |cols|) ==> f == Panic)
  {
    RowsNeverMismatch(cfg, m, idx, cols, rows, tick);
  }

  // ---------------------------------------------------------------- sizes

  /** The largest number of columns of a slot, and the longest array, as found by `maxSize`. */
  ghost predicate SizesOf(m: seq<Cols>, cols: nat, rows: nat) {
    && (forall i | 0 <= i < |m| :: |m[i]| <= cols)
    && (cols > 0 ==> exists i | 0 <= i < |m| :: |m[i]| == cols)
    && (forall i, c | 0 <= i < |m| && c in m[i] :: |m[i][c]| <= rows)
    && (rows > 0 ==> exists i, c | 0 <= i < |m| && c in m[i] :: |m[i][c]| == rows)
  }
}
