/** The buffer-facing steps of a script plan: storing a query result, and building the parameters of the next query.
    The orders in which Go visits a map are parameters. */
module ScriptPlan {
  import Int64
  import opened ColumnPlacing
  import opened Listings
  import opened Options
  import opened Values
  import opened RowFill
  import opened RowBuffer
  import opened ScriptBind

  method AllocCurrentDataToState(buffer: Buffer, idx: int, rows: seq<seq<Value>>, cols: seq<string>, tick: int)
    returns (o: Outcome)
    modifies buffer`m
    ensures Agrees(o, old(buffer.m), buffer.m, Alloc(buffer.cfg, old(buffer.m), idx, rows, cols, tick))
  {
    if rows == [] {
      return Stored;
    }
    if |rows[0]| != |cols| {
      return MismatchError;
    }
    o := AllocRows(buffer, idx, rows, cols, tick);
  }

  method AllocRows(buffer: Buffer, idx: int, rows: seq<seq<Value>>, cols: seq<string>, tick: int) returns (o: Outcome)
    modifies buffer`m
    ensures Agrees(o, old(buffer.m), buffer.m, FillRows(buffer.cfg, old(buffer.m), idx, cols, rows, tick))
  {
    ghost var start := buffer.m;
    var r := 0;
    while r < |rows|
      invariant r <= |rows| && FillRows(buffer.cfg, start, idx, cols, rows[..r], tick) == Done(buffer.m)
      invariant |buffer.m| == |start| && (|start| <= idx ==> buffer.m == start)
    {
      RowNext(buffer.cfg, start, buffer.m, idx, cols, rows, r, tick);
      o := AllocRow(buffer, idx, cols, rows[r], r, tick);
      if o != Stored {
        return o;
      }
      r := r + 1;
    }
    assert rows[..r] == rows;
    return Stored;
  }

  method AllocRow(buffer: Buffer, idx: int, cols: seq<string>, values: seq<Value>, r: nat, tick: int)
    returns (o: Outcome)
    modifies buffer`m
    ensures Agrees(o, old(buffer.m), buffer.m, FillRow(buffer.cfg, old(buffer.m), idx, cols, values, r, tick))
  {
    ghost var start := buffer.m;
    var n := 0;
    while n < |values|
      invariant n <= |values| && FillRow(buffer.cfg, start, idx, cols, values[..n], r, tick) == Done(buffer.m)
      invariant |start| <= idx ==> buffer.m == start
    {
      CellNext(buffer.cfg, start, buffer.m, idx, cols, values, n, r, tick);
      if |cols| <= n {
        return Crashed;
      }
      ghost var next := RowFill.Set(buffer.cfg, buffer.m, idx, cols[n], r, values[n], tick);
      o := buffer.Set(idx, cols[n], r, values[n], tick);
      if o != Stored {
        assert next.Overflow? || next.Panic?;
        return o;
      }
      assert next == Done(buffer.m);
      n := n + 1;
    }
    assert values[..n] == values;
    return Stored;
  }

  /** One cell more: it fails for the whole row, or the row is stored that far. */
  lemma CellNext(cfg: Config, start: seq<Cols>, m: seq<Cols>, idx: int, cols: seq<string>, values: seq<Value>,
      n: nat, r: nat, tick: int)
    requires n < |values| && FillRow(cfg, start, idx, cols, values[..n], r, tick) == Done(m)
    ensures var next := if |cols| <= n then Panic else RowFill.Set(cfg, m, idx, cols[n], r, values[n], tick);
      && FillRow(cfg, start, idx, cols, values[..n + 1], r, tick) == next
      && (!next.Done? ==> FillRow(cfg, start, idx, cols, values, r, tick) == next)
      && (next.Overflow? ==> |start| <= idx)
  {
    assert values[..n + 1][..n] == values[..n] && values[..n + 1][n] == values[n];
    SizeStays(cfg, start, idx, cols, values[..n], r, tick);
    if !FillRow(cfg, start, idx, cols, values[..n + 1], r, tick).Done? {
      FirstFailedCell(cfg, start, idx, cols, values, n + 1, r, tick);
    }
  }

  /** One row more: it fails for the whole result, or leaves a buffer with as many slots. */
  lemma RowNext(cfg: Config, start: seq<Cols>, m: seq<Cols>, idx: int, cols: seq<string>, rows: seq<seq<Value>>,
      r: nat, tick: int)
    requires r < |rows| && FillRows(cfg, start, idx, cols, rows[..r], tick) == Done(m)
    ensures var next := FillRow(cfg, m, idx, cols, rows[r], r, tick);
      && FillRows(cfg, start, idx, cols, rows[..r + 1], tick) == next
      && (if next.Done? then |next.m| == |m| && (|m| <= idx ==> next.m == m)
          else FillRows(cfg, start, idx, cols, rows, tick) == next && (next.Panic? || (next.Overflow? && |m| <= idx)))
  {
    assert rows[..r + 1][..r] == rows[..r] && rows[..r + 1][r] == rows[r];
    if FillRow(cfg, m, idx, cols, rows[r], r, tick).Done? {
      SizeStays(cfg, m, idx, cols, rows[r], r, tick);
    } else {
      FirstFailedRow(cfg, start, idx, cols, rows, r + 1, tick);
      FailureIsOverflow(cfg, m, idx, cols, rows[r], r, tick);
    }
  }

  /** The first cell that cannot be stored decides the row, and the first such row the whole result. */
  lemma {:induction false} FirstFailedCell(cfg: Config, m: seq<Cols>, idx: int, cols: seq<string>,
      values: seq<Value>, n: nat, r: nat, tick: int)
    requires n <= |values| && !FillRow(cfg, m, idx, cols, values[..n], r, tick).Done?
    ensures FillRow(cfg, m, idx, cols, values, r, tick) == FillRow(cfg, m, idx, cols, values[..n], r, tick)
    decreases |values|
  {
    if n == |values| {
      assert values[..n] == values;
    } else {
      var front := values[..|values| - 1];
      assert front[..n] == values[..n];
      FirstFailedCell(cfg, m, idx, cols, front, n, r, tick);
    }
  }

  lemma {:induction false} FirstFailedRow(cfg: Config, m: seq<Cols>, idx: int, cols: seq<string>,
      rows: seq<seq<Value>>, n: nat, tick: int)
    requires n <= |rows| && !FillRows(cfg, m, idx, cols, rows[..n], tick).Done?
    ensures FillRows(cfg, m, idx, cols, rows, tick) == FillRows(cfg, m, idx, cols, rows[..n], tick)
    decreases |rows|
  {
    if n == |rows| {
      assert rows[..n] == rows;
    } else {
      var front := rows[..|rows| - 1];
      assert front[..n] == rows[..n];
      FirstFailedRow(cfg, m, idx, cols, front, n, tick);
    }
  }

  /** Storing a row never changes the number of slots, and nothing can be stored past the last one. */
  lemma {:induction false} SizeStays(cfg: Config, m: seq<Cols>, idx: int, cols: seq<string>, values: seq<Value>,
      r: nat, tick: int)
    requires FillRow(cfg, m, idx, cols, values, r, tick).Done?
    ensures |FillRow(cfg, m, idx, cols, values, r, tick).m| == |m|
    ensures |m| <= idx ==> values == [] && FillRow(cfg, m, idx, cols, values, r, tick).m == m
    decreases |values|
  {
    if values != [] {
      SizeStays(cfg, m, idx, cols, values[..|values| - 1], r, tick);
    }
  }

  lemma {:induction false} FailureIsOverflow(cfg: Config, m: seq<Cols>, idx: int, cols: seq<string>,
      values: seq<Value>, r: nat, tick: int)
    requires !FillRow(cfg, m, idx, cols, values, r, tick).Done?
    ensures FillRow(cfg, m, idx, cols, values, r, tick).Panic? || (FillRow(cfg, m, idx, cols, values, r, tick).Overflow? && |m| <= idx)
    decreases |values|
  {
    var front := values[..|values| - 1];
    if FillRow(cfg, m, idx, cols, front, r, tick).Done? {
      SizeStays(cfg, m, idx, cols, front, r, tick);
    } else {
      FailureIsOverflow(cfg, m, idx, cols, front, r, tick);
    }
  }

  // ---------------------------------------------------------------- sync parameters

  /** The rows after the first cells of a column were written. */
  function PutPrefix(rows: seq<seq<Value>>, w: nat, pos: nat, column: seq<Option<Value>>): (r: seq<seq<Value>>)
    requires IsMatrix(rows, |rows|, w) && pos < w && |column| <= |rows|
    ensures IsMatrix(r, |rows|, w)
  {
    PutColumn(rows[..|column|], w, Bound(pos, column)) + rows[|column|..]
  }

  lemma PutOneMore(rows: seq<seq<Value>>, w: nat, pos: nat, column: seq<Option<Value>>, v: Option<Value>)
    requires IsMatrix(rows, |rows|, w) && pos < w && |column| < |rows|
    ensures var i, r := |column|, PutPrefix(rows, w, pos, column);
      PutPrefix(rows, w, pos, column + [v]) == if v.None? then r else r[i := r[i][pos := v.value]]
  {}

  method FillStatic(rows: seq<seq<Value>>, w: nat, pos: nat, value: Value) returns (param: seq<seq<Value>>)
    requires IsMatrix(rows, |rows|, w) && pos < w
    ensures param == PutColumn(rows, w, Bound(pos, seq(|rows|, _ => Some(value))))
  {
    param := rows;
    var i := 0;
    ghost var column := [];
    while i < |rows|
      invariant i == |column| <= |rows| && param == PutPrefix(rows, w, pos, column)
      invariant forall j | 0 <= j < i :: column[j] == Some(value)
    {
      PutOneMore(rows, w, pos, column, Some(value));
      param := param[i := param[i][pos := value]];
      column := column + [Some(value)];
      i := i + 1;
    }
    assert column == seq(|rows|, _ => Some(value));
  }

  method FillDynamic(buffer: Buffer, rows: seq<seq<Value>>, w: nat, pos: nat, d: SyncDynamic, tick: int)
    returns (p: Param)
    requires IsMatrix(rows, |rows|, w) && pos < w
    ensures var column := DynamicColumn(buffer.m, d, |rows|, tick);
      (column.Some? ==> |column.value| == |rows|) &&
      p == if column.None? then Failed(DynamicError(d)) else Rows(PutColumn(rows, w, Bound(pos, column.value)))
  {
    var param, i := rows, 0;
    ghost var column := [];
    while i < |rows|
      invariant i == |column| <= |rows| && DynamicColumn(buffer.m, d, i, tick) == Some(column)
      invariant param == PutPrefix(rows, w, pos, column)
    {
      var cell, error := DynamicCell(buffer, d, i, tick);
      DynamicNext(buffer.m, d, i, |rows|, tick);
      if cell.None? {
        return Failed(error);
      }
      PutOneMore(rows, w, pos, column, cell.value);
      if cell.value.Some? {
        param := param[i := param[i][pos := cell.value.value]];
      }
      column := column + [cell.value];
      i := i + 1;
    }
    return Rows(param);
  }

  /** The value of row `i`, nothing before the start offset; None if it cannot be read. */
  method DynamicCell(buffer: Buffer, d: SyncDynamic, i: nat, tick: int)
    returns (cell: Option<Option<Value>>, error: BindError)
    ensures cell == CellAt(buffer.m, d, i, tick)
    ensures cell.None? ==> error == DynamicError(d)
  {
    error := GetFailed;
    if i < d.start {
      return Some(None), error;
    }
    var g := buffer.Get(d.planIdx, d.col, i, tick);
    if !g.Got? {
      return None, if g.OutLen? then GetFailed else Crash;
    }
    return Some(Some(g.value)), error;
  }

  function CellAt(m: seq<Cols>, d: SyncDynamic, i: nat, tick: int): Option<Option<Value>> {
    if i < d.start then Some(None)
    else if Get(m, d.planIdx, d.col, i, tick).Got? then Some(Some(Get(m, d.planIdx, d.col, i, tick).value))
    else None
  }

  lemma DynamicNext(m: seq<Cols>, d: SyncDynamic, i: nat, n: nat, tick: int)
    requires i < n && DynamicColumn(m, d, i, tick).Some?
    ensures var cell := CellAt(m, d, i, tick);
      if cell.None? then DynamicColumn(m, d, n, tick).None?
      else DynamicColumn(m, d, i + 1, tick) == Some(DynamicColumn(m, d, i, tick).value + [cell.value])
  {
    DynamicColumnIff(m, d, n, tick);
  }

  /** What one binding does to the rows. */
  function PutBound(rows: seq<seq<Value>>, w: nat, b: Bound): (p: Param)
    requires Fits(b, |rows|, w) && IsMatrix(rows, |rows|, w)
  {
    if b.Fail? then Failed(b.error) else Rows(PutColumn(rows, w, b))
  }

  method BindColumn(buffer: Buffer, rows: seq<seq<Value>>, w: nat, k: string, b: SyncBinding, tick: int)
    returns (p: Param)
    requires IsMatrix(rows, |rows|, w)
    ensures var bound := SyncBound(buffer.m, k, b, |rows|, w, tick);
      Fits(bound, |rows|, w) && p == PutBound(rows, w, bound)
  {
    SyncBoundFits(buffer.m, k, b, |rows|, w, tick);
    var conv := Atoi(k);
    if conv.None? {
      return Failed(NotANumber);
    }
    var fixIdx := Int64.Wrap(conv.value - 1);
    if fixIdx < 0 {
      return Failed(BelowFirst);
    }
    if fixIdx >= w {
      return Failed(BeyondLast);
    }
    if b.fixed.Some? {
      var param := FillStatic(rows, w, fixIdx, Text(b.fixed.value));
      return Rows(param);
    }
    if b.dynamic.Some? {
      p := FillDynamic(buffer, rows, w, fixIdx, b.dynamic.value, tick);
    } else {
      return Failed(Unset);
    }
  }

  /** The first binding that fails decides the result. */
  lemma {:induction false} FirstFailureStays(n: nat, w: nat, bs: seq<Bound>, j: nat)
    requires j <= |bs| && (forall b | b in bs :: Fits(b, n, w)) && PlaceAll(n, w, bs[..j]).Failed?
    ensures PlaceAll(n, w, bs) == PlaceAll(n, w, bs[..j])
    decreases |bs|
  {
    if j == |bs| {
      assert bs[..j] == bs;
    } else {
      var front := bs[..|bs| - 1];
      assert front[..j] == bs[..j];
      FirstFailureStays(n, w, front, j);
    }
  }

  lemma PlaceNext(n: nat, w: nat, bs: seq<Bound>, j: nat, rows: seq<seq<Value>>)
    requires j < |bs| && (forall b | b in bs :: Fits(b, n, w)) && PlaceAll(n, w, bs[..j]) == Rows(rows)
    ensures PlaceAll(n, w, bs[..j + 1]) == PutBound(rows, w, bs[j])
    ensures PutBound(rows, w, bs[j]).Failed? ==> PlaceAll(n, w, bs) == PutBound(rows, w, bs[j])
  {
    assert bs[..j + 1][..j] == bs[..j];
    if PutBound(rows, w, bs[j]).Failed? {
      FirstFailureStays(n, w, bs, j + 1);
    }
  }

  method NewRows(n: nat, w: nat) returns (param: seq<seq<Value>>)
    ensures param == NilRows(n, w)
  {
    param := [];
    while |param| < n
      invariant |param| <= n && forall i | 0 <= i < |param| :: param[i] == Nils(w)
    {
      param := param + [Nils(w)];
    }
  }

  /** The fixed binding of the sync query, for the sizes of the whole buffer. */
  method MakeSyncPlanParam(buffer: Buffer, fix: map<string, SyncBinding>, order: seq<string>, tick: int)
    returns (p: Param)
    requires IsListing(order, fix.Keys)
    ensures exists w, n :: SizesOf(buffer.m, w, n)
    ensures forall w, n | SizesOf(buffer.m, w, n) :: p == SyncParam(buffer.m, fix, order, n, w, tick)
  {
    var w, n := buffer.MaxSize();
    var param := NewRows(n, w);
    p := BindColumns(buffer, param, w, fix, order, tick);
    forall v, k | SizesOf(buffer.m, v, k) ensures v == w && k == n {
      SizesAreDetermined(buffer.m, v, k, w, n);
    }
  }

  method BindColumns(buffer: Buffer, rows: seq<seq<Value>>, w: nat, fix: map<string, SyncBinding>,
      order: seq<string>, tick: int)
    returns (p: Param)
    requires rows == NilRows(|rows|, w) && forall k | k in order :: k in fix
    ensures p == SyncParam(buffer.m, fix, order, |rows|, w, tick)
  {
    ghost var n, bs := |rows|, Visit(SyncBounds(buffer.m, fix, |rows|, w, tick), order);
    var param, j := rows, 0;
    while j < |order|
      invariant j <= |order| && PlaceAll(n, w, bs[..j]) == Rows(param)
    {
      PlaceNext(n, w, bs, j, param);
      p := BindColumn(buffer, param, w, order[j], fix[order[j]], tick);
      if p.Failed? {
        return;
      }
      param := p.rows;
      j := j + 1;
    }
    assert bs[..j] == bs;
    return Rows(param);
  }

  // ---------------------------------------------------------------- read parameters

  method LargestPosition(order: seq<string>) returns (r: Option<nat>)
    ensures r == MaxKey(order)
  {
    var maxK: nat, j := 0, 0;
    while j < |order|
      invariant j <= |order| && MaxKey(order[..j]) == Some(maxK)
    {
      assert order[..j + 1][..j] == order[..j];
      var conv := Atoi(order[j]);
      if conv.None? {
        MaxKeyCovers(order);
        assert order[j] in order;
        return None;
      }
      maxK := if maxK < conv.value then conv.value else maxK;
      j := j + 1;
    }
    assert order[..j] == order;
    return Some(maxK);
  }

  /** The fixed binding of a read query: one visit for the width, another for the values. */
  method MakeReadPlanParam(buffer: Buffer, fix: map<string, ReadBinding>, first: seq<string>, order: seq<string>,
      tick: int)
    returns (p: Param)
    requires IsListing(first, fix.Keys) && IsListing(order, fix.Keys)
    ensures p == ReadParam(buffer.m, fix, order, tick)
  {
    WidthIsDetermined(first, order);
    var maxK := LargestPosition(first);
    if maxK.None? {
      return Failed(NotANumber);
    }
    var w := maxK.value;
    ghost var bounds := ReadBounds(buffer.m, fix, w, tick);
    ghost var bs := Visit(bounds, order);
    VisitFits(1, w, bounds, order);
    var data, j := Nils(w), 0;
    assert [data] == NilRows(1, w);
    while j < |order|
      invariant j <= |order| && |data| == w && PlaceAll(1, w, bs[..j]) == Rows([data])
    {
      assert order[j] in order;
      OneValue(buffer.m, order[j], fix[order[j]], w, tick);
      ReadNext(bounds, order, data, j);
      var v := ReadCell(buffer, order[j], fix[order[j]], w, tick);
      if v.Fail? {
        return Failed(v.error);
      }
      data := data[v.pos := v.column[0].value];
      j := j + 1;
    }
    assert bs[..j] == bs;
    return Rows([data]);
  }

  /** One binding more: it fails for the whole row, or writes one cell of it. */
  lemma ReadNext(bounds: map<string, Bound>, order: seq<string>, data: seq<Value>, j: nat)
    requires AllFit(bounds, 1, |data|) && (forall k | k in order :: k in bounds) && j < |order|
    requires PlaceAll(1, |data|, Visit(bounds, order)[..j]) == Rows([data])
    requires order[j] in bounds && IsOneValue(bounds[order[j]])
    ensures CellPlaced(data, bounds, order, j)
  {
    VisitFits(1, |data|, bounds, order);
    PlaceCell(data, Visit(bounds, order), j);
  }

  predicate IsOneValue(b: Bound) {
    b.Bound? ==> |b.column| == 1 && b.column[0].Some?
  }

  ghost predicate CellPlaced(data: seq<Value>, bounds: map<string, Bound>, order: seq<string>, j: nat)
    requires AllFit(bounds, 1, |data|) && (forall k | k in order :: k in bounds) && j < |order|
  {
    VisitFits(1, |data|, bounds, order);
    var bs := Visit(bounds, order);
    var b := bs[j];
    if b.Fail? then PlaceAll(1, |data|, bs) == Failed(b.error)
    else
      && b.pos < |data| && |b.column| == 1 && b.column[0].Some?
      && PlaceAll(1, |data|, bs[..j + 1]) == Rows([data[b.pos := b.column[0].value]])
  }

  lemma PlaceCell(data: seq<Value>, bs: seq<Bound>, j: nat)
    requires j < |bs| && forall b | b in bs :: Fits(b, 1, |data|)
    requires PlaceAll(1, |data|, bs[..j]) == Rows([data])
    requires IsOneValue(bs[j])
    ensures
      if bs[j].Fail? then PlaceAll(1, |data|, bs) == Failed(bs[j].error)
      else
        && bs[j].pos < |data|
        && PlaceAll(1, |data|, bs[..j + 1]) == Rows([data[bs[j].pos := bs[j].column[0].value]])
  {
    PlaceNext(1, |data|, bs, j, [data]);
    assert bs[j] in bs;
    if bs[j].Bound? {
      assert PutColumn([data], |data|, bs[j]) == [data[bs[j].pos := bs[j].column[0].value]];
    }
  }

  /** One binding of a read query: its position and value, or why it has none. */
  method ReadCell(buffer: Buffer, k: string, b: ReadBinding, w: nat, tick: int) returns (r: Bound)
    ensures r == ReadBound(buffer.m, k, b, w, tick)
    ensures r.Bound? ==> |r.column| == 1 && r.column[0].Some?
  {
    var conv := Atoi(k);
    if conv.None? {
      return Fail(NotANumber);
    }
    var fixIdx := Int64.Wrap(conv.value - 1);
    if fixIdx < 0 {
      return Fail(BelowFirst);
    }
    if fixIdx >= w {
      // The index panics, also when the value cannot be read.
      return Fail(Crash);
    }
    if b.fixed.Some? {
      return Bound(fixIdx, [Some(Text(b.fixed.value))]);
    }
    if b.dynamic.None? {
      return Bound(fixIdx, [Some(Nil)]);
    }
    var d := b.dynamic.value;
    var g := buffer.Get(d.planIdx, d.col, d.rowIdx, tick);
    if !g.Got? {
      return Fail(if g.OutLen? then GetFailed else Crash);
    }
    return Bound(fixIdx, [Some(g.value)]);
  }
}
