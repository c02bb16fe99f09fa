/** From query results to sync parameters, over every run of a script plan with one read plan: its buffer is made once
    and reused by every later run. */
module ResultBinding {
  import opened ColumnPlacing
  import opened Listings
  import opened Options
  import opened Values
  import opened RowFill
  import opened RowReuse
  import opened ScriptBind

  /** A binding that names a column of the result or a constant, at a position within the column count. */
  predicate GoodBinding(k: string, b: SyncBinding, cols: seq<string>) {
    && 0 <= Pos(k) < |cols|
    && (b.fixed.Some? || (b.dynamic.Some? && b.dynamic.value.planIdx == 0 && b.dynamic.value.col in cols))
  }

  function IndexOf(cols: seq<string>, col: string): (i: nat)
    requires col in cols
    ensures i < |cols| && cols[i] == col
  {
    if cols[0] == col then 0 else 1 + IndexOf(cols[1..], col)
  }

  /** Whether row `r` of the binding is read from the buffer. */
  predicate Reads(b: SyncBinding, r: nat) {
    b.fixed.None? && b.dynamic.Some? && b.dynamic.value.start <= r
  }

  /** What a binding puts into row `r` if only the new rows count. */
  function BoundValue(b: SyncBinding, rows: seq<seq<Value>>, cols: seq<string>, r: nat): Value {
    if b.fixed.Some? then Text(b.fixed.value)
    else if !Reads(b, r) || b.dynamic.value.col !in cols || r >= |rows| then Nil
    else At(rows[r], IndexOf(cols, b.dynamic.value.col))
  }

  /** What it really puts there: past the new rows, what is left over in the slot `m`. */
  function SentValue(cfg: Config, m: Cols, b: SyncBinding, rows: seq<seq<Value>>, cols: seq<string>, tick: int,
      r: nat): Value
    requires cfg.rowCap >= 1
  {
    if Reads(b, r) && r >= |rows| then Leftover(cfg, ColumnIn(m, b.dynamic.value.col), |rows|, tick, r)
    else BoundValue(b, rows, cols, r)
  }

  function SentColumn(cfg: Config, m: Cols, b: SyncBinding, rows: seq<seq<Value>>, cols: seq<string>, tick: int,
      n: nat): seq<Value>
    requires cfg.rowCap >= 1
  {
    seq(n, r requires 0 <= r < n => SentValue(cfg, m, b, rows, cols, tick, r))
  }

  /** The column of each key when the result is stored into slot `m` and read back up to row `n`. */
  function SentColumns(cfg: Config, m: Cols, fix: map<string, SyncBinding>, rows: seq<seq<Value>>, cols: seq<string>,
      tick: int, n: nat): map<string, seq<Value>>
    requires cfg.rowCap >= 1
  {
    map k | k in fix :: SentColumn(cfg, m, fix[k], rows, cols, tick, n)
  }

  /** The column of each key if only the new rows count. */
  function NewColumns(fix: map<string, SyncBinding>, rows: seq<seq<Value>>, cols: seq<string>, n: nat): map<string, seq<Value>> {
    map k | k in fix :: seq(n, r requires 0 <= r < n => BoundValue(fix[k], rows, cols, r))
  }

  /** The bound column goes to position `pos` and shows the values of `column`. */
  predicate Shows(s: Bound, pos: int, column: seq<Value>) {
    && s.Bound? && s.pos == pos && |s.column| == |column|
    && forall r | 0 <= r < |column| :: (if s.column[r].Some? then s.column[r].value else Nil) == column[r]
  }

  /** Every key names a column, and all columns have `n` rows. */
  predicate AreColumns(columns: map<string, seq<Value>>, n: nat, w: nat) {
    forall k | k in columns :: 0 <= Pos(k) < w && |columns[k]| == n
  }

  /** Parameter rows: each key's column at its position, nil at positions nobody names. */
  ghost predicate IsSent(p: seq<seq<Value>>, n: nat, w: nat, columns: map<string, seq<Value>>)
    requires AreColumns(columns, n, w)
  {
    && IsMatrix(p, n, w)
    && (forall k, r | k in columns && 0 <= r < n :: p[r][Pos(k)] == columns[k][r])
    && (forall c, r | 0 <= c < w && 0 <= r < n && (forall k | k in columns :: Pos(k) != c) :: p[r][c] == Nil)
  }

  /** Rows show one set of columns only. */
  lemma SentIsUnique(p: seq<seq<Value>>, n: nat, w: nat, a: map<string, seq<Value>>, b: map<string, seq<Value>>)
    requires AreColumns(a, n, w) && AreColumns(b, n, w) && a.Keys == b.Keys && IsSent(p, n, w, a)
    ensures IsSent(p, n, w, b) <==> a == b
  {
    if IsSent(p, n, w, b) {
      forall k | k in a ensures a[k] == b[k] {
        forall r | 0 <= r < n ensures a[k][r] == b[k][r] {
          assert p[r][Pos(k)] == a[k][r] && p[r][Pos(k)] == b[k][r];
        }
      }
    }
  }

  lemma GoodBoundShows(cfg: Config, m: Cols, sh: seq<Entry>, k: string, b: SyncBinding, rows: seq<seq<Value>>,
      cols: seq<string>, tick: int)
    requires cfg.rowCap >= 1 && Distinct(cols) && Rectangular(rows, |cols|) && OneShape(m, cols, sh)
    requires GoodBinding(k, b, cols) && FillRowsIn(cfg, m, cols, rows, tick).Some?
    ensures var n, f := |ShapeAfter(cfg, sh, |rows|, tick)|, FillRowsIn(cfg, m, cols, rows, tick).value;
      Shows(SyncBound([f], k, b, n, |cols|, tick), Pos(k), SentColumn(cfg, m, b, rows, cols, tick, n))
  {
    var n, f := |ShapeAfter(cfg, sh, |rows|, tick)|, FillRowsIn(cfg, m, cols, rows, tick).value;
    if b.fixed.None? {
      var d := b.dynamic.value;
      DynamicColumnIff([f], d, n, tick);
      forall i: nat | i < n
        ensures Get([f], d.planIdx, d.col, i, tick) == Got(if i < |rows| then rows[i][IndexOf(cols, d.col)]
                  else Leftover(cfg, ColumnIn(m, d.col), |rows|, tick, i))
      {
        ReadsAfterResult(cfg, m, cols, sh, rows, tick, IndexOf(cols, d.col), i);
      }
    }
  }

  /** Placing columns that show their values gives the rows that are sent. */
  lemma ShownIsSent(n: nat, w: nat, bounds: map<string, Bound>, order: seq<string>, columns: map<string, seq<Value>>)
    requires AllFit(bounds, n, w) && KeysPlace(bounds) && IsListing(order, bounds.Keys) && DistinctPositions(bounds.Keys)
    requires columns.Keys == bounds.Keys && AreColumns(columns, n, w)
    requires forall k | k in bounds :: Shows(bounds[k], Pos(k), columns[k])
    ensures Placed(n, w, bounds, order).Rows? && IsSent(Placed(n, w, bounds, order).rows, n, w, columns)
  {
    PlacedIff(n, w, bounds, order);
    var p := Placed(n, w, bounds, order).rows;
    forall k, r | k in columns && 0 <= r < n ensures p[r][Pos(k)] == columns[k][r] {
      PlacedAt(n, w, bounds, order, k, r);
    }
    forall c, r | 0 <= c < w && 0 <= r < n && (forall k | k in columns :: Pos(k) != c) ensures p[r][c] == Nil {
      NothingPlacedAt(n, w, bounds, order, r, c);
    }
  }

  /** The bindings of the sync query are good for the columns, and each names a position of its own. */
  ghost predicate GoodFix(fix: map<string, SyncBinding>, cols: seq<string>) {
    DistinctPositions(fix.Keys) && forall k | k in fix :: GoodBinding(k, fix[k], cols)
  }

  /** Nothing visible is left over: past the new rows, from the start offset on, every entry that a dynamic binding
      reads and the staleness test leaves is nil, or stamped later. */
  ghost predicate NothingLeft(cfg: Config, m: Cols, fix: map<string, SyncBinding>, first: nat, tick: int)
    requires cfg.rowCap >= 1
  {
    forall k, r: nat | k in fix && Reads(fix[k], r) ::
      var es := ColumnIn(m, fix[k].dynamic.value.col);
      first <= r < LeftAfter(cfg, es, first, tick) && es[r].stamp <= tick ==> es[r].data == Nil
  }

  lemma NothingLeftIff(cfg: Config, m: Cols, fix: map<string, SyncBinding>, rows: seq<seq<Value>>, cols: seq<string>,
      tick: int, n: nat)
    requires cfg.rowCap >= 1
    requires forall k | k in fix && fix[k].fixed.None? && fix[k].dynamic.Some? ::
      LeftAfter(cfg, ColumnIn(m, fix[k].dynamic.value.col), |rows|, tick) <= n
    ensures SentColumns(cfg, m, fix, rows, cols, tick, n) == NewColumns(fix, rows, cols, n)
       <==> NothingLeft(cfg, m, fix, |rows|, tick)
  {
    var a, b := SentColumns(cfg, m, fix, rows, cols, tick, n), NewColumns(fix, rows, cols, n);
    if a == b {
      forall k, r: nat | k in fix && Reads(fix[k], r)
        ensures var es := ColumnIn(m, fix[k].dynamic.value.col);
          |rows| <= r < LeftAfter(cfg, es, |rows|, tick) && es[r].stamp <= tick ==> es[r].data == Nil
      {
        if |rows| <= r < n {
          assert a[k][r] == b[k][r];
        }
      }
    }
    if NothingLeft(cfg, m, fix, |rows|, tick) {
      forall k | k in fix ensures a[k] == b[k] {
        forall r | 0 <= r < n ensures a[k][r] == b[k][r] {}
      }
    }
  }

  /** What is sent to the sync query after a result was stored into the slot `m`, and how many rows. */
  ghost predicate IsSentAfter(cfg: Config, m: Cols, rows: seq<seq<Value>>, cols: seq<string>,
      fix: map<string, SyncBinding>, tick: int, n: nat, p: Param)
    requires cfg.rowCap >= 1 && GoodFix(fix, cols)
  {
    && p.Rows?
    && IsSent(p.rows, n, |cols|, SentColumns(cfg, m, fix, rows, cols, tick, n))
    && (IsSent(p.rows, n, |cols|, NewColumns(fix, rows, cols, n)) <==> NothingLeft(cfg, m, fix, |rows|, tick))
  }

  lemma BindUsedSlot(cfg: Config, m: Cols, sh: seq<Entry>, rows: seq<seq<Value>>, cols: seq<string>,
      fix: map<string, SyncBinding>, order: seq<string>, tick: int)
    requires cfg.rowCap >= 1 && Distinct(cols) && Rectangular(rows, |cols|) && OneShape(m, cols, sh)
    requires GoodFix(fix, cols) && IsListing(order, fix.Keys) && FillRowsIn(cfg, m, cols, rows, tick).Some?
    ensures var f, n := FillRowsIn(cfg, m, cols, rows, tick).value, |ShapeAfter(cfg, sh, |rows|, tick)|;
      IsSentAfter(cfg, m, rows, cols, fix, tick, n, SyncParam([f], fix, order, n, |cols|, tick))
  {
    var f, n := FillRowsIn(cfg, m, cols, rows, tick).value, |ShapeAfter(cfg, sh, |rows|, tick)|;
    var bounds := SyncBounds([f], fix, n, |cols|, tick);
    var sent := SentColumns(cfg, m, fix, rows, cols, tick, n);
    forall k | k in bounds ensures Shows(bounds[k], Pos(k), sent[k]) {
      GoodBoundShows(cfg, m, sh, k, fix[k], rows, cols, tick);
    }
    ShownIsSent(n, |cols|, bounds, order, sent);
    forall k | k in fix && fix[k].fixed.None?
      ensures LeftAfter(cfg, ColumnIn(m, fix[k].dynamic.value.col), |rows|, tick) <= n
    {
      var c := IndexOf(cols, fix[k].dynamic.value.col);
      KeptIsLeft(cfg, sh, |rows|, tick);
      LeftOfShape(cfg, ColumnIn(m, cols[c]), |rows|, tick);
    }
    SentIsUnique(Placed(n, |cols|, bounds, order).rows, n, |cols|, sent, NewColumns(fix, rows, cols, n));
    NothingLeftIff(cfg, m, fix, rows, cols, tick, n);
  }

  /** One run on a used slot of one shape: the result is stored, the slot keeps one shape, and the binding succeeds in
      every map order. The rows sent are the new ones, followed by whatever is left over; so exactly the new rows are
      sent if and only if nothing is. */
  lemma UsedSlotReachesSync(cfg: Config, m: Cols, sh: seq<Entry>, rows: seq<seq<Value>>, cols: seq<string>,
      fix: map<string, SyncBinding>, order: seq<string>, tick: int)
    requires cfg.rowCap >= 1 && cols != [] && Distinct(cols) && Rectangular(rows, |cols|)
    requires OneShape(m, cols, sh) && (rows != [] || sh != [])
    requires GoodFix(fix, cols) && IsListing(order, fix.Keys)
    ensures var f, after := Alloc(cfg, [m], 0, rows, cols, tick), ShapeAfter(cfg, sh, |rows|, tick);
      && f.Done? && |f.m| == 1 && OneShape(f.m[0], cols, after) && SizesOf(f.m, |cols|, |after|) && |rows| <= |after|
      && IsSentAfter(cfg, m, rows, cols, fix, tick, |after|, SyncParam(f.m, fix, order, |after|, |cols|, tick))
  {
    AllocKeepsOneShape(cfg, m, sh, rows, cols, tick);
    var f := FillRowsIn(cfg, m, cols, rows, tick).value;
    SizesOfOneShape(f, cols, ShapeAfter(cfg, sh, |rows|, tick));
    BindUsedSlot(cfg, m, sh, rows, cols, fix, order, tick);
  }

  lemma AllocKeepsOneShape(cfg: Config, m: Cols, sh: seq<Entry>, rows: seq<seq<Value>>, cols: seq<string>, tick: int)
    requires cfg.rowCap >= 1 && Distinct(cols) && Rectangular(rows, |cols|) && OneShape(m, cols, sh)
    ensures var f := FillRowsIn(cfg, m, cols, rows, tick);
      && f.Some? && OneShape(f.value, cols, ShapeAfter(cfg, sh, |rows|, tick))
      && Alloc(cfg, [m], 0, rows, cols, tick) == Done([f.value])
  {
    FillIsSlotwise(cfg, [m], 0, cols, rows, tick);
    ResultKeepsOneShape(cfg, m, cols, sh, rows, tick);
    assert [m][0 := FillRowsIn(cfg, m, cols, rows, tick).value] == [FillRowsIn(cfg, m, cols, rows, tick).value];
  }

  // ---------------------------------------------------------------- every run

  /** The result of one run of the read query. */
  datatype Result = Result(rows: seq<seq<Value>>, tick: int)

  /** The buffer of a plan state after its runs; it starts with one empty slot and is never made anew. */
  function AfterRuns(cfg: Config, cols: seq<string>, rs: seq<Result>): SetResult {
    if rs == [] then Done([map[]])
    else
      var before, r := AfterRuns(cfg, cols, rs[..|rs| - 1]), rs[|rs| - 1];
      if before.Done? then Alloc(cfg, before.m, 0, r.rows, cols, r.tick) else before
  }

  function ShapeAfterRuns(cfg: Config, rs: seq<Result>): seq<Entry>
    requires cfg.rowCap >= 1
  {
    if rs == [] then []
    else ShapeAfter(cfg, ShapeAfterRuns(cfg, rs[..|rs| - 1]), |rs[|rs| - 1].rows|, rs[|rs| - 1].tick)
  }

  lemma {:induction false} RunsKeepOneShape(cfg: Config, cols: seq<string>, rs: seq<Result>)
    requires cfg.rowCap >= 1 && Distinct(cols) && forall i | 0 <= i < |rs| :: Rectangular(rs[i].rows, |cols|)
    ensures var f := AfterRuns(cfg, cols, rs);
      f.Done? && |f.m| == 1 && OneShape(f.m[0], cols, ShapeAfterRuns(cfg, rs))
    decreases |rs|
  {
    if rs == [] {
      assert OneShape(map[], cols, []);
    } else {
      var r := rs[|rs| - 1];
      RunsKeepOneShape(cfg, cols, rs[..|rs| - 1]);
      var before := AfterRuns(cfg, cols, rs[..|rs| - 1]).m;
      assert before == [before[0]];
      AllocKeepsOneShape(cfg, before[0], ShapeAfterRuns(cfg, rs[..|rs| - 1]), r.rows, cols, r.tick);
    }
  }

  /** After any number of earlier runs, whatever they read: a run whose result is not empty reaches the sync query, and
      what is sent is the new rows and the leftovers of the runs before. */
  lemma EveryRunReachesSync(cfg: Config, earlier: seq<Result>, r: Result, cols: seq<string>,
      fix: map<string, SyncBinding>, order: seq<string>)
    requires cfg.rowCap >= 1 && cols != [] && Distinct(cols) && r.rows != [] && Rectangular(r.rows, |cols|)
    requires forall i | 0 <= i < |earlier| :: Rectangular(earlier[i].rows, |cols|)
    requires GoodFix(fix, cols) && IsListing(order, fix.Keys)
    ensures var m, f, n := AfterRuns(cfg, cols, earlier), AfterRuns(cfg, cols, earlier + [r]),
                           |ShapeAfterRuns(cfg, earlier + [r])|;
      && m.Done? && |m.m| == 1 && f.Done? && SizesOf(f.m, |cols|, n) && |r.rows| <= n
      && IsSentAfter(cfg, m.m[0], r.rows, cols, fix, r.tick, n, SyncParam(f.m, fix, order, n, |cols|, r.tick))
  {
    var all := earlier + [r];
    assert all[..|all| - 1] == earlier;
    RunsKeepOneShape(cfg, cols, earlier);
    var m := AfterRuns(cfg, cols, earlier).m;
    assert m == [m[0]];
    UsedSlotReachesSync(cfg, m[0], ShapeAfterRuns(cfg, earlier), r.rows, cols, fix, order, r.tick);
  }

  /** The first run: nothing is left over, so the rows sent are those read, nil in the spare rows. On a clock later than the
      idle bound there is one spare row less than the capacity. */
  lemma ResultReachesSync(cfg: Config, r: Result, cols: seq<string>, fix: map<string, SyncBinding>, order: seq<string>)
    requires cfg.rowCap >= 1 && cols != [] && Distinct(cols) && r.rows != [] && Rectangular(r.rows, |cols|)
    requires GoodFix(fix, cols) && IsListing(order, fix.Keys)
    ensures var f, n := AfterRuns(cfg, cols, [r]), |ShapeAfterRuns(cfg, [r])|;
      && f.Done? && SizesOf(f.m, |cols|, n) && |r.rows| <= n
      && (Stale(cfg, ZERO, r.tick) ==> n == |r.rows| - 1 + cfg.rowCap)
      && var p := SyncParam(f.m, fix, order, n, |cols|, r.tick);
         p.Rows? && IsSent(p.rows, n, |cols|, NewColumns(fix, r.rows, cols, n))
  {
    if Stale(cfg, ZERO, r.tick) {
      LengthAfterResult(cfg, [], |r.rows|, r.tick);
      assert ShapeAfterRuns(cfg, []) == [] && [r][..0] == [];
    }
    assert [] + [r] == [r];
    EveryRunReachesSync(cfg, [], r, cols, fix, order);
  }

  // ---------------------------------------------------------------- read back by a later read query

  /** A rectangular result is read back cell by cell: a dynamic binding of a later read query puts row r, column c of the
      result into its parameter row, whatever the slot held before. */
  lemma ResultReachesRead(cfg: Config, m: seq<Cols>, idx: nat, rows: seq<seq<Value>>, cols: seq<string>, tick: int,
      fix: map<string, ReadBinding>, order: seq<string>, k: string, r: nat, c: nat)
    requires cfg.rowCap >= 1 && idx < |m| && Distinct(cols) && Rectangular(rows, |cols|) && r < |rows| && c < |cols|
    requires IsListing(order, fix.Keys) && DistinctPositions(fix.Keys)
    requires k in fix && fix[k] == ReadBinding(None, Some(ReadDynamic(idx, cols[c], r)))
    ensures var f := Alloc(cfg, m, idx, rows, cols, tick);
      && f.Done?
      && (ReadParam(f.m, fix, order, tick).Rows? ==>
            var p := ReadParam(f.m, fix, order, tick).rows;
            |p| == 1 && 0 <= Pos(k) < |p[0]| && p[0][Pos(k)] == rows[r][c])
  {
    AllocThenGet(cfg, m, idx, rows, cols, tick);
    var f := Alloc(cfg, m, idx, rows, cols, tick);
    assert Get(f.m, idx, cols[c], r, tick) == Got(rows[r][c]);
    if ReadParam(f.m, fix, order, tick).Rows? {
      ReadParamHolds(f.m, fix, order, tick, k);
    }
  }

  // ---------------------------------------------------------------- an old row sent again

  const NOON: int := 1_700_000_000_000_000
  const LATER: int := NOON + 10_000_000
  const ROOM_FOR_TWO: Config := Config(2, 60)
  const TWO_ROWS: Result := Result([[Number(1)], [Number(2)]], NOON)
  const ONE_ROW: Result := Result([[Number(3)]], LATER)
  const COPY: map<string, SyncBinding> := map["1" := SyncBinding(None, Some(SyncDynamic(0, "c", 0)))]
  const AT_NOON: seq<Entry> := [Entry(Number(1), NOON), Entry(Number(2), NOON), ZERO]

  /** Two rows are read, ten seconds later one; with a capacity of two the sync query gets the old second row again. The
      stamps are microseconds of a real clock. */
  lemma OldRowsAreSentAgain()
    ensures var f := AfterRuns(ROOM_FOR_TWO, ["c"], [TWO_ROWS, ONE_ROW]);
      && f.Done? && SizesOf(f.m, 1, 2)
      && SyncParam(f.m, COPY, ["1"], 2, 1, LATER) == Rows([[Number(3)], [Number(2)]])
  {
    SecondRunSends();
    SentRows();
    assert Pos("1") == 0 by {
      OneMeansOne();
    }
    var p := SyncParam(AfterRuns(ROOM_FOR_TWO, ["c"], [TWO_ROWS, ONE_ROW]).m, COPY, ["1"], 2, 1, LATER);
    IsTwoCells(p, Number(3), Number(2));
  }

  lemma IsTwoCells(p: Param, a: Value, b: Value)
    requires p.Rows? && |p.rows| == 2 && |p.rows[0]| == |p.rows[1]| == 1 && p.rows[0][0] == a && p.rows[1][0] == b
    ensures p == Rows([[a], [b]])
  {
    assert p.rows[0] == [a] && p.rows[1] == [b];
  }

  lemma SentRows()
    ensures SentValue(ROOM_FOR_TWO, map["c" := AT_NOON], COPY["1"], ONE_ROW.rows, ["c"], LATER, 0) == Number(3)
    ensures SentValue(ROOM_FOR_TWO, map["c" := AT_NOON], COPY["1"], ONE_ROW.rows, ["c"], LATER, 1) == Number(2)
  {
    assert Stale(ROOM_FOR_TWO, ZERO, LATER);
    assert ColumnIn(map["c" := AT_NOON], "c") == AT_NOON;
  }

  lemma SecondRunHasTwoRows()
    ensures |ShapeAfterRuns(ROOM_FOR_TWO, [TWO_ROWS, ONE_ROW])| == 2
  {
    var f := AfterRuns(ROOM_FOR_TWO, ["c"], [TWO_ROWS, ONE_ROW]);
    TwoRunsStore();
    RunsKeepOneShape(ROOM_FOR_TWO, ["c"], [TWO_ROWS, ONE_ROW]);
    assert |ShapeAfterRuns(ROOM_FOR_TWO, [TWO_ROWS, ONE_ROW])| == |ColumnIn(f.m[0], ["c"][0])|;
  }

  lemma SecondRunSends()
    ensures GoodFix(COPY, ["c"])
    ensures var f := AfterRuns(ROOM_FOR_TWO, ["c"], [TWO_ROWS, ONE_ROW]);
      && f.Done? && SizesOf(f.m, 1, 2)
      && IsSentAfter(ROOM_FOR_TWO, map["c" := AT_NOON], ONE_ROW.rows, ["c"], COPY, LATER, 2,
                     SyncParam(f.m, COPY, ["1"], 2, 1, LATER))
  {
    TwoRunsStore();
    SecondRunHasTwoRows();
    assert [TWO_ROWS] + [ONE_ROW] == [TWO_ROWS, ONE_ROW];
    EveryRunReachesSync(ROOM_FOR_TWO, [TWO_ROWS], ONE_ROW, ["c"], COPY, ["1"]);
  }

  lemma TwoRunsStore()
    ensures AfterRuns(ROOM_FOR_TWO, ["c"], [TWO_ROWS]) == Done([map["c" := AT_NOON]])
    ensures AfterRuns(ROOM_FOR_TWO, ["c"], [TWO_ROWS, ONE_ROW]) ==
      Done([map["c" := [Entry(Number(3), LATER), Entry(Number(2), NOON)]]])
  {
    FirstRunStores();
    var one, two, three := Entry(Number(1), NOON), Entry(Number(2), NOON), Entry(Number(3), LATER);
    assert Copied(AT_NOON, 2)[0 := three] == [three, two];
    StoreOne(ROOM_FOR_TWO, AT_NOON, [Number(3)], LATER);
    FillIsSlotwise(ROOM_FOR_TWO, [map["c" := AT_NOON]], 0, ["c"], ONE_ROW.rows, LATER);
    assert [TWO_ROWS, ONE_ROW][..1] == [TWO_ROWS];
  }

  lemma FirstRunStores()
    ensures AfterRuns(ROOM_FOR_TWO, ["c"], [TWO_ROWS]) == Done([map["c" := AT_NOON]])
  {
    var one := Entry(Number(1), NOON);
    assert Copied([], 2)[0 := one] == [one, ZERO];
    assert Copied([one, ZERO], 3)[1 := Entry(Number(2), NOON)] == AT_NOON;
    StoreOne(ROOM_FOR_TWO, [], [Number(1)], NOON);
    assert TWO_ROWS.rows[..1] == [[Number(1)]] && [TWO_ROWS][..0] == [];
    StoreNext(ROOM_FOR_TWO, [one, ZERO], TWO_ROWS.rows, NOON);
    FillIsSlotwise(ROOM_FOR_TWO, [map[]], 0, ["c"], TWO_ROWS.rows, NOON);
  }

  /** The column after a result of one row. */
  lemma StoreOne(cfg: Config, es: seq<Entry>, values: seq<Value>, tick: int)
    requires |values| == 1 && SetEntry(cfg, es, 0, values[0], tick).Some?
    ensures FillRowsIn(cfg, if es == [] then map[] else map["c" := es], ["c"], [values], tick) ==
      Some(map["c" := SetEntry(cfg, es, 0, values[0], tick).value])
  {
    var m: Cols := if es == [] then map[] else map["c" := es];
    assert values[..0] == [] && [values][..0] == [];
    assert FillRowIn(cfg, m, ["c"], values, 0, tick) == Some(m["c" := SetEntry(cfg, es, 0, values[0], tick).value]);
    assert m["c" := SetEntry(cfg, es, 0, values[0], tick).value] == map["c" := SetEntry(cfg, es, 0, values[0], tick).value];
  }

  /** The column after a second row. */
  lemma StoreNext(cfg: Config, es: seq<Entry>, rows: seq<seq<Value>>, tick: int)
    requires |rows| == 2 && |rows[1]| == 1 && SetEntry(cfg, es, 1, rows[1][0], tick).Some?
    requires FillRowsIn(cfg, map[], ["c"], rows[..1], tick) == Some(map["c" := es])
    ensures FillRowsIn(cfg, map[], ["c"], rows, tick) == Some(map["c" := SetEntry(cfg, es, 1, rows[1][0], tick).value])
  {
    var es' := SetEntry(cfg, es, 1, rows[1][0], tick).value;
    assert rows[1][..0] == [];
    assert map["c" := es]["c" := es'] == map["c" := es'];
    assert FillRowIn(cfg, map["c" := es], ["c"], rows[1], 1, tick) == Some(map["c" := es']);
  }
}
