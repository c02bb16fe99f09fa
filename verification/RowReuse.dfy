/** What storing one result after another leaves in a slot: the arrays are never cleared, so a shorter result keeps the
    tail of an earlier one. */
module RowReuse {
  import opened Listings
  import opened Options
  import opened Values
  import opened RowFill

  /** An array without its values; its length and its stamps decide how it grows and shrinks. */
  function Shape(es: seq<Entry>): (sh: seq<Entry>)
  {
    seq(|es|, i requires 0 <= i < |es| => Entry(Nil, es[i].stamp))
  }

  /** The shape after `n` rows stamped `tick`. */
  function ShapeAfter(cfg: Config, sh: seq<Entry>, n: nat, tick: int): (r: seq<Entry>)
    requires cfg.rowCap >= 1
    ensures n <= |r|
  {
    if n == 0 then sh
    else
      var before := ShapeAfter(cfg, sh, n - 1, tick);
      SetKeepsEarlierRows(cfg, before, n - 1, Nil, tick);
      SetEntry(cfg, before, n - 1, Nil, tick).value
  }

  /** How many of the leading entries were never cut off on the way. */
  function KeptAfter(cfg: Config, sh: seq<Entry>, n: nat, tick: int): (k: nat)
    requires cfg.rowCap >= 1
    ensures k <= |sh| && k <= |ShapeAfter(cfg, sh, n, tick)|
  {
    if n == 0 then |sh|
    else
      var before, len := KeptAfter(cfg, sh, n - 1, tick), |ShapeAfter(cfg, sh, n, tick)|;
      if before < len then before else len
  }

  /** The array `es` is `prior` after the values of column `c`: the values first, then what was left over of `prior`,
      then untouched spare entries. */
  ghost predicate IsReused(cfg: Config, prior: seq<Entry>, es: seq<Entry>, rows: seq<seq<Value>>, c: nat, tick: int)
    requires cfg.rowCap >= 1 && forall r | 0 <= r < |rows| :: c < |rows[r]|
  {
    && Shape(es) == ShapeAfter(cfg, Shape(prior), |rows|, tick)
    && (forall i | 0 <= i < |rows| :: es[i] == Entry(rows[i][c], tick))
    && (forall i | |rows| <= i < |es| ::
          es[i] == if i < KeptAfter(cfg, Shape(prior), |rows|, tick) then prior[i] else ZERO)
  }

  lemma ShapeOfSet(cfg: Config, es: seq<Entry>, row: nat, value: Value, tick: int)
    requires cfg.rowCap >= 1 && row <= |es|
    ensures var r, s := SetEntry(cfg, es, row, value, tick), SetEntry(cfg, Shape(es), row, Nil, tick);
      r.Some? && s.Some? && Shape(r.value) == s.value
  {
    assert es != [] ==> Stale(cfg, es[|es| - 1], tick) == Stale(cfg, Shape(es)[|es| - 1], tick);
    var r, s := SetEntry(cfg, es, row, value, tick).value, SetEntry(cfg, Shape(es), row, Nil, tick).value;
    forall i | 0 <= i < |r| ensures Shape(r)[i] == s[i] {}
  }

  lemma ReuseStep(cfg: Config, prior: seq<Entry>, es: seq<Entry>, rows: seq<seq<Value>>, c: nat, tick: int)
    requires cfg.rowCap >= 1 && rows != [] && forall r | 0 <= r < |rows| :: c < |rows[r]|
    requires IsReused(cfg, prior, es, rows[..|rows| - 1], c, tick)
    ensures var r := SetEntry(cfg, es, |rows| - 1, rows[|rows| - 1][c], tick);
      r.Some? && IsReused(cfg, prior, r.value, rows, c, tick)
  {
    var n := |rows| - 1;
    ShapeOfSet(cfg, es, n, rows[n][c], tick);
    SetKeepsEarlierRows(cfg, es, n, rows[n][c], tick);
  }

  /** Storing a result into any slot: every named column becomes its reuse, nothing else changes. */
  lemma {:induction false} FillReuses(cfg: Config, m: Cols, cols: seq<string>, rows: seq<seq<Value>>, tick: int)
    requires cfg.rowCap >= 1 && Distinct(cols) && Rectangular(rows, |cols|)
    ensures var f := FillRowsIn(cfg, m, cols, rows, tick);
      && f.Some?
      && (forall c: nat | c < |cols| :: IsReused(cfg, ColumnIn(m, cols[c]), ColumnIn(f.value, cols[c]), rows, c, tick))
      && (forall col :: col in f.value <==> col in m || (rows != [] && col in cols))
      && OthersStay(m, f.value, cols)
    decreases |rows|
  {
    if rows != [] {
      var n := |rows| - 1;
      FillReuses(cfg, m, cols, rows[..n], tick);
      var before := FillRowsIn(cfg, m, cols, rows[..n], tick).value;
      forall c: nat | c < |cols| ensures n <= |ColumnIn(before, cols[c])| {
        assert IsReused(cfg, ColumnIn(m, cols[c]), ColumnIn(before, cols[c]), rows[..n], c, tick);
      }
      FillRowSets(cfg, before, cols, rows[n], n, tick);
      assert cols[..|cols|] == cols;
      var after := FillRowsIn(cfg, m, cols, rows, tick).value;
      forall c: nat | c < |cols|
        ensures IsReused(cfg, ColumnIn(m, cols[c]), ColumnIn(after, cols[c]), rows, c, tick)
      {
        ReuseRow(cfg, m, before, after, cols, rows, c, tick);
      }
    }
  }

  lemma ReuseRow(cfg: Config, m: Cols, before: Cols, after: Cols, cols: seq<string>, rows: seq<seq<Value>>, c: nat,
      tick: int)
    requires cfg.rowCap >= 1 && rows != [] && Rectangular(rows, |cols|) && c < |cols|
    requires IsReused(cfg, ColumnIn(m, cols[c]), ColumnIn(before, cols[c]), rows[..|rows| - 1], c, tick)
    requires RowStored(cfg, before, after, cols, rows[|rows| - 1], |rows| - 1, tick)
    ensures IsReused(cfg, ColumnIn(m, cols[c]), ColumnIn(after, cols[c]), rows, c, tick)
  {
    ReuseStep(cfg, ColumnIn(m, cols[c]), ColumnIn(before, cols[c]), rows, c, tick);
  }

  // ---------------------------------------------------------------- one shape for all columns

  /** The slot holds exactly the named columns, all of one shape; before the first row it holds none. */
  ghost predicate OneShape(m: Cols, cols: seq<string>, sh: seq<Entry>) {
    && (forall col :: col in m <==> sh != [] && col in cols)
    && (forall c | 0 <= c < |cols| :: Shape(ColumnIn(m, cols[c])) == sh)
  }

  lemma ResultKeepsOneShape(cfg: Config, m: Cols, cols: seq<string>, sh: seq<Entry>, rows: seq<seq<Value>>, tick: int)
    requires cfg.rowCap >= 1 && Distinct(cols) && Rectangular(rows, |cols|) && OneShape(m, cols, sh)
    ensures var f := FillRowsIn(cfg, m, cols, rows, tick);
      f.Some? && OneShape(f.value, cols, ShapeAfter(cfg, sh, |rows|, tick))
  {
    FillReuses(cfg, m, cols, rows, tick);
    var f := FillRowsIn(cfg, m, cols, rows, tick).value;
    forall c | 0 <= c < |cols| ensures Shape(ColumnIn(f, cols[c])) == ShapeAfter(cfg, sh, |rows|, tick) {
      assert IsReused(cfg, ColumnIn(m, cols[c]), ColumnIn(f, cols[c]), rows, c, tick);
    }
  }

  /** The sizes of a one-slot buffer of one shape. */
  lemma SizesOfOneShape(m: Cols, cols: seq<string>, sh: seq<Entry>)
    requires OneShape(m, cols, sh) && Distinct(cols) && cols != [] && sh != []
    ensures SizesOf([m], |cols|, |sh|)
  {
    assert m.Keys == Elems(cols);
    DistinctCount(cols);
    forall col | col in m ensures |m[col]| == |sh| {
      var c :| 0 <= c < |cols| && cols[c] == col;
      assert Shape(ColumnIn(m, cols[c])) == sh;
    }
    assert cols[0] in m && [m][0] == m;
  }

  lemma {:induction false} DistinctCount(cols: seq<string>)
    requires Distinct(cols)
    ensures |Elems(cols)| == |cols|
    decreases |cols|
  {
    if cols != [] {
      DistinctCount(cols[..|cols| - 1]);
      LastIsNew(cols);
    }
  }

  // ---------------------------------------------------------------- how much is left over

  /** The entries of an old array that a result of `n` rows leaves: all of them, or, when the last one is stale, no more
      than the capacity, to which the first row then cuts the array. */
  function LeftAfter(cfg: Config, sh: seq<Entry>, n: nat, tick: int): (k: nat)
    requires cfg.rowCap >= 1
  {
    if n > 0 && sh != [] && Stale(cfg, sh[|sh| - 1], tick) && cfg.rowCap < |sh| then cfg.rowCap else |sh|
  }

  /** The guard of the first write decides for the whole result. */
  lemma KeptIsLeft(cfg: Config, sh: seq<Entry>, n: nat, tick: int)
    requires cfg.rowCap >= 1
    ensures KeptAfter(cfg, sh, n, tick) == LeftAfter(cfg, sh, n, tick)
  {
    if sh != [] && Stale(cfg, sh[|sh| - 1], tick) {
      KeptOfStale(cfg, sh, n, tick);
    } else if sh != [] {
      KeptOfFresh(cfg, sh, n, tick);
    }
  }

  lemma {:induction false} KeptOfStale(cfg: Config, sh: seq<Entry>, n: nat, tick: int)
    requires cfg.rowCap >= 1 && sh != [] && Stale(cfg, sh[|sh| - 1], tick)
    ensures KeptAfter(cfg, sh, n, tick) == LeftAfter(cfg, sh, n, tick)
    ensures n > 0 ==> cfg.rowCap <= |ShapeAfter(cfg, sh, n, tick)|
    decreases n
  {
    if n > 0 {
      KeptOfStale(cfg, sh, n - 1, tick);
    }
  }

  lemma {:induction false} NeverCut(cfg: Config, sh: seq<Entry>, n: nat, tick: int)
    requires cfg.rowCap >= 1 && forall j: nat | j <= n :: |sh| <= |ShapeAfter(cfg, sh, j, tick)|
    ensures KeptAfter(cfg, sh, n, tick) == |sh|
    decreases n
  {
    if n > 0 {
      NeverCut(cfg, sh, n - 1, tick);
    }
  }

  lemma KeptOfFresh(cfg: Config, sh: seq<Entry>, n: nat, tick: int)
    requires cfg.rowCap >= 1 && sh != [] && !Stale(cfg, sh[|sh| - 1], tick)
    ensures KeptAfter(cfg, sh, n, tick) == |sh|
  {
    forall j: nat | j <= n ensures |sh| <= |ShapeAfter(cfg, sh, j, tick)| {
      FreshIsNotCut(cfg, sh, j, tick);
    }
    NeverCut(cfg, sh, n, tick);
  }

  lemma FreshIsNotCut(cfg: Config, sh: seq<Entry>, n: nat, tick: int)
    requires cfg.rowCap >= 1 && sh != [] && !Stale(cfg, sh[|sh| - 1], tick)
    ensures |sh| <= |ShapeAfter(cfg, sh, n, tick)|
  {
    if n <= |sh| {
      ShapeOfFresh(cfg, sh, n, tick);
    }
  }

  lemma {:induction false} ShapeOfFresh(cfg: Config, sh: seq<Entry>, n: nat, tick: int)
    requires cfg.rowCap >= 1 && n <= |sh| && sh != [] && !Stale(cfg, sh[|sh| - 1], tick)
    ensures |ShapeAfter(cfg, sh, n, tick)| == |sh|
    ensures n < |sh| ==> ShapeAfter(cfg, sh, n, tick)[|sh| - 1] == sh[|sh| - 1]
    decreases n
  {
    if n > 0 {
      ShapeOfFresh(cfg, sh, n - 1, tick);
    }
  }

  // ---------------------------------------------------------------- how long the arrays become

  /** From row `n` on every entry is stale, and there are as many as the capacity leaves. */
  ghost predicate IsTight(cfg: Config, es: seq<Entry>, n: nat, tick: int) {
    |es| == n - 1 + cfg.rowCap && forall i | n <= i < |es| :: Stale(cfg, es[i], tick)
  }

  lemma {:induction false} TightFrom(cfg: Config, sh: seq<Entry>, first: nat, n: nat, tick: int)
    requires cfg.rowCap >= 1 && 1 <= first <= n && Stale(cfg, ZERO, tick)
    requires IsTight(cfg, ShapeAfter(cfg, sh, first, tick), first, tick)
    ensures IsTight(cfg, ShapeAfter(cfg, sh, n, tick), n, tick)
    decreases n
  {
    if n > first {
      TightFrom(cfg, sh, first, n - 1, tick);
    }
  }

  /** How long the arrays are after a result of `n` rows, at a stamp later than the idle bound: a new array, one whose
      entries are all stale, and one that is too short end with a spare entry less than the capacity; an array that is
      long enough and whose last entry is not stale keeps its length. */
  lemma LengthAfterResult(cfg: Config, sh: seq<Entry>, n: nat, tick: int)
    requires cfg.rowCap >= 1 && n >= 1 && Stale(cfg, ZERO, tick)
    ensures (forall i | 0 <= i < |sh| :: Stale(cfg, sh[i], tick)) ==> |ShapeAfter(cfg, sh, n, tick)| == n - 1 + cfg.rowCap
    ensures sh != [] && !Stale(cfg, sh[|sh| - 1], tick) ==>
      |ShapeAfter(cfg, sh, n, tick)| == if n <= |sh| then |sh| else n - 1 + cfg.rowCap
  {
    if forall i | 0 <= i < |sh| :: Stale(cfg, sh[i], tick) {
      SetKeepsEarlierRows(cfg, sh, 0, Nil, tick);
      SetLength(cfg, sh, 0, Nil, tick);
      assert ShapeAfter(cfg, sh, 0, tick) == sh;
      TightFrom(cfg, sh, 1, n, tick);
    } else if !Stale(cfg, sh[|sh| - 1], tick) {
      ShapeOfFresh(cfg, sh, if n <= |sh| then n else |sh|, tick);
      if n > |sh| {
        FirstRowPastTheEnd(cfg, sh, tick);
        TightFrom(cfg, sh, |sh| + 1, n, tick);
      }
    }
  }

  lemma FirstRowPastTheEnd(cfg: Config, sh: seq<Entry>, tick: int)
    requires cfg.rowCap >= 1 && sh != [] && Stale(cfg, ZERO, tick) && |ShapeAfter(cfg, sh, |sh|, tick)| == |sh|
    ensures IsTight(cfg, ShapeAfter(cfg, sh, |sh| + 1, tick), |sh| + 1, tick)
  {
    var es := ShapeAfter(cfg, sh, |sh|, tick);
    SetKeepsEarlierRows(cfg, es, |sh|, Nil, tick);
    SetLength(cfg, es, |sh|, Nil, tick);
  }

  /** What a read at `tick` finds at row `i`, past a result of `n` rows: the old value if it was neither cut off nor
      stamped later. */
  function Leftover(cfg: Config, prior: seq<Entry>, n: nat, tick: int, i: nat): Value
    requires cfg.rowCap >= 1
  {
    if i < LeftAfter(cfg, prior, n, tick) && prior[i].stamp <= tick then prior[i].data else Nil
  }

  lemma LeftOfShape(cfg: Config, es: seq<Entry>, n: nat, tick: int)
    requires cfg.rowCap >= 1
    ensures LeftAfter(cfg, Shape(es), n, tick) == LeftAfter(cfg, es, n, tick)
  {
    assert es != [] ==> Stale(cfg, Shape(es)[|es| - 1], tick) == Stale(cfg, es[|es| - 1], tick);
  }

  /** Reading a named column after the result: the new rows, then the leftovers. */
  lemma ReadsAfterResult(cfg: Config, m: Cols, cols: seq<string>, sh: seq<Entry>, rows: seq<seq<Value>>, tick: int,
      c: nat, i: nat)
    requires cfg.rowCap >= 1 && Distinct(cols) && Rectangular(rows, |cols|) && OneShape(m, cols, sh)
    requires c < |cols| && i < |ShapeAfter(cfg, sh, |rows|, tick)|
    ensures var f := FillRowsIn(cfg, m, cols, rows, tick);
      f.Some? && Get([f.value], 0, cols[c], i, tick) ==
        Got(if i < |rows| then rows[i][c] else Leftover(cfg, ColumnIn(m, cols[c]), |rows|, tick, i))
  {
    FillReuses(cfg, m, cols, rows, tick);
    KeptIsLeft(cfg, sh, |rows|, tick);
    LeftOfShape(cfg, ColumnIn(m, cols[c]), |rows|, tick);
    var f := FillRowsIn(cfg, m, cols, rows, tick).value;
    assert IsReused(cfg, ColumnIn(m, cols[c]), ColumnIn(f, cols[c]), rows, c, tick);
    assert |ColumnIn(f, cols[c])| == |ShapeAfter(cfg, sh, |rows|, tick)|;
  }

  /** As long as the last entry is not stale, a shorter result resizes nothing, and every old row past it is read again. */
  lemma ShorterResultShowsOldRows(cfg: Config, m: Cols, cols: seq<string>, sh: seq<Entry>, rows: seq<seq<Value>>,
      tick: int, c: nat, i: nat)
    requires cfg.rowCap >= 1 && Distinct(cols) && Rectangular(rows, |cols|) && OneShape(m, cols, sh)
    requires c < |cols| && |rows| <= i < |sh| && !Stale(cfg, sh[|sh| - 1], tick) && sh[i].stamp <= tick
    ensures var f := FillRowsIn(cfg, m, cols, rows, tick);
      f.Some? && Get([f.value], 0, cols[c], i, tick) == Got(ColumnIn(m, cols[c])[i].data)
  {
    assert Shape(ColumnIn(m, cols[c]))[i] == sh[i];
    KeptOfFresh(cfg, sh, |rows|, tick);
    LeftOfShape(cfg, ColumnIn(m, cols[c]), |rows|, tick);
    ReadsAfterResult(cfg, m, cols, sh, rows, tick, c, i);
  }
}
