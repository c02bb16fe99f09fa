/** The fixed bindings of a script plan: how `makeSyncPlanParam` and `makeReadPlanParam` turn buffered rows into
    query parameters. */
module ScriptBind {
  import Int64
  import opened ColumnPlacing
  import opened Listings
  import opened Options
  import opened Values
  import opened RowFill

  // ---------------------------------------------------------------- sync parameters

  datatype SyncDynamic = SyncDynamic(planIdx: int, col: string, start: int)
  datatype SyncBinding = SyncBinding(fixed: Option<string>, dynamic: Option<SyncDynamic>)

  /** The rows of a dynamic column from `start` on; None if one of them cannot be read. */
  function DynamicColumn(m: seq<Cols>, d: SyncDynamic, n: nat, tick: int): Option<seq<Option<Value>>>
  {
    if n == 0 then Some([])
    else
      var before := DynamicColumn(m, d, n - 1, tick);
      if before.None? then None
      else if n - 1 < d.start then Some(before.value + [None])
      else
        var g := Get(m, d.planIdx, d.col, n - 1, tick);
        if g.Got? then Some(before.value + [Some(g.value)]) else None
  }

  /** A column that fails to read either reports an error or, for a negative plan index, crashes. */
  function DynamicError(d: SyncDynamic): BindError {
    if d.planIdx < 0 then Crash else GetFailed
  }

  function SyncBound(m: seq<Cols>, k: string, b: SyncBinding, n: nat, w: nat, tick: int): Bound {
    var conv := Atoi(k);
    if conv.None? then Fail(NotANumber)
    else if Pos(k) < 0 then Fail(BelowFirst)
    else if Pos(k) >= w then Fail(BeyondLast)
    else if b.fixed.Some? then Bound(Pos(k), seq(n, _ => Some(Text(b.fixed.value))))
    else if b.dynamic.None? then Fail(Unset)
    else
      var column := DynamicColumn(m, b.dynamic.value, n, tick);
      if column.None? then Fail(DynamicError(b.dynamic.value)) else Bound(Pos(k), column.value)
  }

  lemma {:induction false} DynamicColumnIff(m: seq<Cols>, d: SyncDynamic, n: nat, tick: int)
    ensures var column := DynamicColumn(m, d, n, tick);
      && (column.Some? <==> forall i | 0 <= i < n && i >= d.start :: Get(m, d.planIdx, d.col, i, tick).Got?)
      && (column.Some? ==> |column.value| == n && forall i | 0 <= i < n ::
            column.value[i] == if i < d.start then None else Some(Get(m, d.planIdx, d.col, i, tick).value))
  {
    if n > 0 {
      DynamicColumnIff(m, d, n - 1, tick);
    }
  }

  lemma SyncBoundFits(m: seq<Cols>, k: string, b: SyncBinding, n: nat, w: nat, tick: int)
    ensures Fits(SyncBound(m, k, b, n, w, tick), n, w)
  {
    if b.dynamic.Some? {
      DynamicColumnIff(m, b.dynamic.value, n, tick);
    }
  }

  /** What each key binds. */
  function SyncBounds(m: seq<Cols>, fix: map<string, SyncBinding>, n: nat, w: nat, tick: int): (bounds: map<string, Bound>)
    ensures bounds.Keys == fix.Keys && AllFit(bounds, n, w) && KeysPlace(bounds)
  {
    var bounds := map k | k in fix :: SyncBound(m, k, fix[k], n, w, tick);
    SyncBoundsFit(m, fix, n, w, tick);
    bounds
  }

  lemma SyncBoundsFit(m: seq<Cols>, fix: map<string, SyncBinding>, n: nat, w: nat, tick: int)
    ensures var bounds := map k | k in fix :: SyncBound(m, k, fix[k], n, w, tick);
      AllFit(bounds, n, w) && KeysPlace(bounds)
  {
    forall k | k in fix ensures Fits(SyncBound(m, k, fix[k], n, w, tick), n, w) {
      SyncBoundFits(m, k, fix[k], n, w, tick);
    }
  }

  /** The parameter rows for the sync query. */
  function SyncParam(m: seq<Cols>, fix: map<string, SyncBinding>, order: seq<string>, n: nat, w: nat, tick: int): Param
    requires forall k | k in order :: k in fix
  {
    Placed(n, w, SyncBounds(m, fix, n, w, tick), order)
  }

  /** Every map order gives the same rows or the same failure. */
  ghost predicate SyncOrderIsIrrelevant(m: seq<Cols>, fix: map<string, SyncBinding>, n: nat, w: nat, tick: int) {
    forall o1, o2 | IsListing(o1, fix.Keys) && IsListing(o2, fix.Keys) ::
      SyncParam(m, fix, o1, n, w, tick) == SyncParam(m, fix, o2, n, w, tick)
  }

  /** For every buffer and all bindings: the map order does not matter if and only if no two keys write different values
      to one cell or, where some bindings fail, all of those fail alike. */
  lemma SyncParamIsDeterminedIff(m: seq<Cols>, fix: map<string, SyncBinding>, n: nat, w: nat, tick: int)
    ensures var bounds := SyncBounds(m, fix, n, w, tick);
      SyncOrderIsIrrelevant(m, fix, n, w, tick) <==> if AllBound(bounds) then KeysAgree(bounds) else OneError(bounds)
  {
    var bounds := SyncBounds(m, fix, n, w, tick);
    OrderIsIrrelevantIff(n, w, bounds);
    forall o1, o2 | IsListing(o1, fix.Keys) && IsListing(o2, fix.Keys)
      ensures SyncParam(m, fix, o1, n, w, tick) == SyncParam(m, fix, o2, n, w, tick)
         <==> Placed(n, w, bounds, o1) == Placed(n, w, bounds, o2)
    {}
  }

  /** In particular with distinct positions it matters only if two bindings fail differently. */
  lemma SyncParamIsDetermined(m: seq<Cols>, fix: map<string, SyncBinding>, n: nat, w: nat, tick: int)
    requires DistinctPositions(fix.Keys)
    ensures SyncOrderIsIrrelevant(m, fix, n, w, tick) <==> OneError(SyncBounds(m, fix, n, w, tick))
  {
    SyncParamIsDeterminedIff(m, fix, n, w, tick);
  }

  /** Two different constants for one position depend on the map order, wherever all bindings succeed. */
  lemma TwoConstantsDependOnOrder(m: seq<Cols>, fix: map<string, SyncBinding>, j: string, k: string, n: nat, w: nat,
      tick: int)
    requires AllBound(SyncBounds(m, fix, n, w, tick)) && j in fix && k in fix && Pos(j) == Pos(k) && n > 0
    requires fix[j].fixed.Some? && fix[k].fixed.Some? && fix[j].fixed != fix[k].fixed
    ensures !SyncOrderIsIrrelevant(m, fix, n, w, tick)
  {
    var bounds := SyncBounds(m, fix, n, w, tick);
    assert bounds[j].Bound? && bounds[k].Bound?;
    assert Writes(bounds[j], 0, Pos(j)) && Writes(bounds[k], 0, Pos(j));
    assert Clash(bounds[j], bounds[k]);
    SyncParamIsDeterminedIff(m, fix, n, w, tick);
  }

  /** Two bindings that fail differently, one with a crash and one with an error, or with two errors, do so as well. */
  lemma TwoErrorsDependOnOrder(m: seq<Cols>, fix: map<string, SyncBinding>, j: string, k: string, n: nat, w: nat,
      tick: int)
    requires j in fix && k in fix
    requires SyncBound(m, j, fix[j], n, w, tick).Fail? && SyncBound(m, k, fix[k], n, w, tick).Fail?
    requires SyncBound(m, j, fix[j], n, w, tick).error != SyncBound(m, k, fix[k], n, w, tick).error
    ensures !SyncOrderIsIrrelevant(m, fix, n, w, tick)
  {
    var bounds := SyncBounds(m, fix, n, w, tick);
    assert bounds[j].Fail? && bounds[k].Fail? && bounds[j].error != bounds[k].error;
    SyncParamIsDeterminedIff(m, fix, n, w, tick);
  }

  const ONE_CELL: Cols := map["c" := [Entry(Number(1), 1)]]

  lemma OneCellSizes()
    ensures SizesOf([ONE_CELL], 1, 1)
  {
    assert [ONE_CELL][0] == ONE_CELL && "c" in ONE_CELL && |ONE_CELL["c"]| == 1;
    assert ONE_CELL.Keys == {"c"};
  }

  /** A one-cell buffer and two different constants under "1" and "01": some two orders give different rows. */
  lemma EqualPositionsDependOnOrder()
    ensures var fix := map["1" := SyncBinding(Some("a"), None), "01" := SyncBinding(Some("b"), None)];
      SizesOf([ONE_CELL], 1, 1) && !SyncOrderIsIrrelevant([ONE_CELL], fix, 1, 1, 1)
  {
    OneCellSizes();
    OneMeansOne();
    var fix := map["1" := SyncBinding(Some("a"), None), "01" := SyncBinding(Some("b"), None)];
    assert "a"[0] != "b"[0];
    forall k | k in fix ensures SyncBound([ONE_CELL], k, fix[k], 1, 1, 1).Bound? {
      assert k == "1" || k == "01";
    }
    TwoConstantsDependOnOrder([ONE_CELL], fix, "1", "01", 1, 1, 1);
  }

  /** A one-cell buffer, a negative plan index and a key that is no number: one order crashes, the other reports. */
  lemma CrashDependsOnOrder()
    ensures var fix := map["1" := SyncBinding(None, Some(SyncDynamic(-1, "c", 0))), "x" := SyncBinding(Some("a"), None)];
      SizesOf([ONE_CELL], 1, 1) && !SyncOrderIsIrrelevant([ONE_CELL], fix, 1, 1, 1)
  {
    OneCellSizes();
    OneMeansOne();
    var d := SyncDynamic(-1, "c", 0);
    DynamicColumnHasRows([ONE_CELL], d, 1, 1);
    var fix := map["1" := SyncBinding(None, Some(d)), "x" := SyncBinding(Some("a"), None)];
    TwoErrorsDependOnOrder([ONE_CELL], fix, "1", "x", 1, 1, 1);
  }

  lemma OneMeansOne()
    ensures Atoi("1") == Some(1) && Atoi("01") == Some(1) && Atoi("x") == None
  {}

  /** Before anything was read there are no columns, and every position is past the last one. */
  lemma EmptyBufferBindsNothing(fix: map<string, SyncBinding>, order: seq<string>, tick: int)
    requires forall k | k in order :: k in fix
    ensures SizesOf([map[]], 0, 0)
    ensures SyncParam([map[]], fix, order, 0, 0, tick).Rows? <==> order == []
  {
    var bs := Visit(SyncBounds([map[]], fix, 0, 0, tick), order);
    VisitFits(0, 0, SyncBounds([map[]], fix, 0, 0, tick), order);
    PlaceAllSucceedsIff(0, 0, bs);
    if order != [] {
      assert bs[0] in bs && order[0] in order && bs[0].Fail?;
    }
  }

  /** The array a dynamic binding reads has `n` rows, or is never read: no row from the start offset on, or a plan past
      the last one, which reads as nil. */
  predicate HasRows(m: seq<Cols>, d: SyncDynamic, n: nat) {
    n == 0 || n <= d.start || |m| <= d.planIdx || (0 <= d.planIdx && n <= |ColumnIn(m[d.planIdx], d.col)|)
  }

  predicate Bindable(m: seq<Cols>, k: string, b: SyncBinding, n: nat, w: nat) {
    0 <= Pos(k) < w && (b.fixed.Some? || (b.dynamic.Some? && HasRows(m, b.dynamic.value, n)))
  }

  lemma DynamicColumnHasRows(m: seq<Cols>, d: SyncDynamic, n: nat, tick: int)
    ensures DynamicColumn(m, d, n, tick).Some? <==> HasRows(m, d, n)
  {
    DynamicColumnIff(m, d, n, tick);
    if n > 0 && d.start < n {
      assert Get(m, d.planIdx, d.col, n - 1, tick).Got? ==> HasRows(m, d, n);
    }
  }

  /** For every buffer: the sync parameters are built if and only if each key names a position and either is a constant
      or reads an array that is long enough. */
  lemma SyncParamIff(m: seq<Cols>, fix: map<string, SyncBinding>, order: seq<string>, n: nat, w: nat, tick: int)
    requires IsListing(order, fix.Keys)
    ensures SyncParam(m, fix, order, n, w, tick).Rows? <==> forall k | k in fix :: Bindable(m, k, fix[k], n, w)
  {
    PlacedIff(n, w, SyncBounds(m, fix, n, w, tick), order);
    forall k | k in fix ensures SyncBound(m, k, fix[k], n, w, tick).Bound? <==> Bindable(m, k, fix[k], n, w) {
      if fix[k].dynamic.Some? {
        DynamicColumnHasRows(m, fix[k].dynamic.value, n, tick);
      }
    }
  }

  /** Why a binding of the sync query fails, for every buffer: a short array is an error, a negative plan index that is
      really read a crash. */
  lemma SyncFailure(m: seq<Cols>, k: string, b: SyncBinding, n: nat, w: nat, tick: int)
    ensures var bound, inside := SyncBound(m, k, b, n, w, tick), 0 <= Pos(k) < w && b.fixed.None?;
      && (bound == Fail(NotANumber) <==> Atoi(k).None?)
      && (bound == Fail(BelowFirst) <==> Atoi(k).Some? && Int64.MIN < Atoi(k).value <= 0)
      && (bound == Fail(BeyondLast) <==> Atoi(k).Some? && Pos(k) >= w)
      && (bound == Fail(Unset) <==> inside && b.dynamic.None?)
      && (bound == Fail(GetFailed) <==> inside && b.dynamic.Some? && b.dynamic.value.planIdx >= 0 && !HasRows(m, b.dynamic.value, n))
      && (bound == Fail(Crash) <==> inside && b.dynamic.Some? && b.dynamic.value.planIdx < 0 < n && b.dynamic.value.start < n)
  {
    if Atoi(k).Some? {
      PosIs(k);
    }
    if b.dynamic.Some? {
      DynamicColumnHasRows(m, b.dynamic.value, n, tick);
    }
  }

  /** What a binding puts into row `r`: a constant its text, a dynamic binding nothing before its offset, from there on the
      entry of its plan and column, nil if the entry is newer or the plan past the last one. */
  predicate SyncsAs(m: seq<Cols>, b: SyncBinding, tick: int, r: nat, v: Value) {
    match b
    case SyncBinding(Some(text), _) => v == Text(text)
    case SyncBinding(None, None) => false
    case SyncBinding(None, Some(d)) =>
      if r < d.start || |m| <= d.planIdx then v == Nil
      else
        && 0 <= d.planIdx && d.col in m[d.planIdx] && r < |m[d.planIdx][d.col]|
        && var e := m[d.planIdx][d.col][r];
           v == if e.stamp <= tick then e.data else Nil
  }

  lemma BoundSyncsAs(m: seq<Cols>, k: string, b: SyncBinding, n: nat, w: nat, tick: int, r: nat)
    requires SyncBound(m, k, b, n, w, tick).Bound? && r < n
    ensures var column := SyncBound(m, k, b, n, w, tick).column;
      |column| == n && SyncsAs(m, b, tick, r, if column[r].Some? then column[r].value else Nil)
  {
    SyncBoundFits(m, k, b, n, w, tick);
    if b.fixed.None? {
      DynamicColumnIff(m, b.dynamic.value, n, tick);
    }
  }

  /** For every buffer, with distinct positions: every row holds each key's value at its place, and nil at places that no
      key names. */
  lemma SyncParamHolds(m: seq<Cols>, fix: map<string, SyncBinding>, order: seq<string>, n: nat, w: nat, tick: int)
    requires IsListing(order, fix.Keys) && DistinctPositions(fix.Keys) && SyncParam(m, fix, order, n, w, tick).Rows?
    ensures var p := SyncParam(m, fix, order, n, w, tick).rows;
      && IsMatrix(p, n, w)
      && (forall k | k in fix :: 0 <= Pos(k) < w)
      && (forall k, r | k in fix && 0 <= r < n :: SyncsAs(m, fix[k], tick, r, p[r][Pos(k)]))
      && (forall c, r | 0 <= c < w && 0 <= r < n && (forall k | k in fix :: Pos(k) != c) :: p[r][c] == Nil)
  {
    var bounds, p := SyncBounds(m, fix, n, w, tick), SyncParam(m, fix, order, n, w, tick).rows;
    SyncParamIff(m, fix, order, n, w, tick);
    forall k, r | k in fix && 0 <= r < n ensures SyncsAs(m, fix[k], tick, r, p[r][Pos(k)]) {
      PlacedAt(n, w, bounds, order, k, r);
      BoundSyncsAs(m, k, fix[k], n, w, tick, r);
    }
    forall c, r | 0 <= c < w && 0 <= r < n && (forall k | k in fix :: Pos(k) != c) ensures p[r][c] == Nil {
      NothingPlacedAt(n, w, bounds, order, r, c);
    }
  }

  predicate ReadsLongest(m: seq<Cols>, d: SyncDynamic, n: nat) {
    n == 0 || n <= d.start || |m| <= d.planIdx || (0 <= d.planIdx && |ColumnIn(m[d.planIdx], d.col)| == n)
  }

  /** With the sizes of the whole buffer, whatever the number of plans: every array that is read must be a longest one. */
  lemma SyncReadsLongestArrays(m: seq<Cols>, fix: map<string, SyncBinding>, order: seq<string>, n: nat, w: nat, tick: int)
    requires IsListing(order, fix.Keys) && SizesOf(m, w, n)
    ensures SyncParam(m, fix, order, n, w, tick).Rows? <==>
      forall k | k in fix ::
        0 <= Pos(k) < w && (fix[k].fixed.Some? || (fix[k].dynamic.Some? && ReadsLongest(m, fix[k].dynamic.value, n)))
  {
    SyncParamIff(m, fix, order, n, w, tick);
  }

  // ---------------------------------------------------------------- read parameters

  datatype ReadDynamic = ReadDynamic(planIdx: int, col: string, rowIdx: int)
  datatype ReadBinding = ReadBinding(fixed: Option<string>, dynamic: Option<ReadDynamic>)

  /** The largest position named, 0 if none is positive; None if some key is no number. */
  function MaxKey(order: seq<string>): Option<nat> {
    if order == [] then Some(0)
    else
      var before, conv := MaxKey(order[..|order| - 1]), Atoi(order[|order| - 1]);
      if before.None? || conv.None? then None else Some(if conv.value > before.value then conv.value else before.value)
  }

  /** The value a binding reads; a binding that is neither fixed nor dynamic reads as nil. */
  function ReadValue(m: seq<Cols>, b: ReadBinding, tick: int): GetResult {
    if b.fixed.Some? then Got(Text(b.fixed.value))
    else if b.dynamic.None? then Got(Nil)
    else Get(m, b.dynamic.value.planIdx, b.dynamic.value.col, b.dynamic.value.rowIdx, tick)
  }

  /** Writing past the row is a crash, whatever was to be written. */
  function ReadBound(m: seq<Cols>, k: string, b: ReadBinding, w: nat, tick: int): Bound {
    var conv := Atoi(k);
    if conv.None? then Fail(NotANumber)
    else if Pos(k) < 0 then Fail(BelowFirst)
    else if Pos(k) >= w then Fail(Crash)
    else
      match ReadValue(m, b, tick)
      case Got(v) => Bound(Pos(k), [Some(v)])
      case OutLen => Fail(GetFailed)
      case GetPanic => Fail(Crash)
  }

  lemma OneValue(m: seq<Cols>, k: string, b: ReadBinding, w: nat, tick: int)
    ensures var r := ReadBound(m, k, b, w, tick);
      r.Bound? ==> ReadValue(m, b, tick).Got? && r == Bound(Pos(k), [Some(ReadValue(m, b, tick).value)])
  {}

  function ReadBounds(m: seq<Cols>, fix: map<string, ReadBinding>, w: nat, tick: int): (bounds: map<string, Bound>)
    ensures bounds.Keys == fix.Keys && AllFit(bounds, 1, w) && KeysPlace(bounds)
  {
    map k | k in fix :: ReadBound(m, k, fix[k], w, tick)
  }

  lemma {:induction false} MaxKeyCovers(order: seq<string>)
    ensures MaxKey(order).Some? <==> forall k | k in order :: Atoi(k).Some?
    ensures MaxKey(order).Some? ==> forall k | k in order :: Atoi(k).value <= MaxKey(order).value
    decreases |order|
  {
    if order != [] {
      MaxKeyCovers(order[..|order| - 1]);
      assert forall k :: k in order <==> k in order[..|order| - 1] || k == order[|order| - 1];
    }
  }

  lemma {:induction false} MaxKeyIsNamed(order: seq<string>)
    requires MaxKey(order).Some? && MaxKey(order).value > 0
    ensures exists k :: k in order && Atoi(k) == Some(MaxKey(order).value)
    decreases |order|
  {
    var front := order[..|order| - 1];
    if MaxKey(front).value == MaxKey(order).value {
      MaxKeyIsNamed(front);
    } else {
      assert order[|order| - 1] in order;
    }
  }

  /** The width does not depend on the order of the visit. */
  lemma WidthIsDetermined(o1: seq<string>, o2: seq<string>)
    requires forall k :: k in o1 <==> k in o2
    ensures MaxKey(o1) == MaxKey(o2)
  {
    MaxKeyCovers(o1);
    MaxKeyCovers(o2);
    if MaxKey(o1).Some? {
      if MaxKey(o1).value > 0 {
        MaxKeyIsNamed(o1);
      }
      if MaxKey(o2).value > 0 {
        MaxKeyIsNamed(o2);
      }
    }
  }

  function ReadParam(m: seq<Cols>, fix: map<string, ReadBinding>, order: seq<string>, tick: int): Param
    requires forall k | k in order :: k in fix
  {
    if MaxKey(order).None? then Failed(NotANumber)
    else Placed(1, MaxKey(order).value, ReadBounds(m, fix, MaxKey(order).value, tick), order)
  }

  /** The entry a dynamic binding names exists, or its plan is past the last one, which reads as nil. */
  predicate HasEntry(m: seq<Cols>, d: ReadDynamic) {
    |m| <= d.planIdx || (0 <= d.planIdx && 0 <= d.rowIdx < |ColumnIn(m[d.planIdx], d.col)|)
  }

  /** The key is a positive number and the binding is a constant, reads an entry, or is neither. */
  predicate Readable(m: seq<Cols>, k: string, b: ReadBinding) {
    Atoi(k).Some? && Atoi(k).value >= 1 && (b.fixed.Some? || b.dynamic.None? || HasEntry(m, b.dynamic.value))
  }

  /** Reading the binding crashes: its plan index is negative, or its row is and the plan exists. */
  predicate CrashesReading(m: seq<Cols>, b: ReadBinding) {
    && b.fixed.None? && b.dynamic.Some?
    && (b.dynamic.value.planIdx < 0 || (b.dynamic.value.planIdx < |m| && b.dynamic.value.rowIdx < 0))
  }

  /** The width covers every position, except the one that the smallest 64-bit number wraps to. */
  lemma BoundIffReadable(m: seq<Cols>, fix: map<string, ReadBinding>, order: seq<string>, k: string, tick: int)
    requires IsListing(order, fix.Keys) && MaxKey(order).Some? && k in fix
    ensures ReadBound(m, k, fix[k], MaxKey(order).value, tick).Bound? <==> Readable(m, k, fix[k])
    ensures ReadBound(m, k, fix[k], MaxKey(order).value, tick) == Fail(Crash) <==>
      Atoi(k) == Some(Int64.MIN) || (Atoi(k).Some? && Atoi(k).value >= 1 && CrashesReading(m, fix[k]))
    ensures ReadBound(m, k, fix[k], MaxKey(order).value, tick) == Fail(BelowFirst) <==>
      Atoi(k).Some? && Int64.MIN < Atoi(k).value <= 0
  {
    MaxKeyCovers(order);
    MaxKeyFits(order);
  }

  lemma {:induction false} MaxKeyFits(order: seq<string>)
    ensures MaxKey(order).Some? ==> MaxKey(order).value <= Int64.MAX
    decreases |order|
  {
    if order != [] {
      MaxKeyFits(order[..|order| - 1]);
    }
  }

  /** A read parameter row is built exactly when every key is a positive number and every value can be read. */
  lemma ReadParamIff(m: seq<Cols>, fix: map<string, ReadBinding>, order: seq<string>, tick: int)
    requires IsListing(order, fix.Keys)
    ensures ReadParam(m, fix, order, tick).Rows? <==> forall k | k in fix :: Readable(m, k, fix[k])
  {
    MaxKeyCovers(order);
    if MaxKey(order).Some? {
      var w := MaxKey(order).value;
      PlacedIff(1, w, ReadBounds(m, fix, w, tick), order);
      forall k | k in fix ensures ReadBound(m, k, fix[k], w, tick).Bound? <==> Readable(m, k, fix[k]) {
        BoundIffReadable(m, fix, order, k, tick);
      }
    } else {
      var k :| k in order && Atoi(k).None?;
      assert k in fix && !Readable(m, k, fix[k]);
    }
  }

  /** What a read binding puts into the row: a constant its text, whether or not there is a dynamic part; a dynamic binding
      the entry of its plan, column and row, nil if the entry is newer or the plan past the last one; a binding that is
      neither nil. */
  predicate ReadsAs(m: seq<Cols>, b: ReadBinding, tick: int, v: Value) {
    match b
    case ReadBinding(Some(text), _) => v == Text(text)
    case ReadBinding(None, None) => v == Nil
    case ReadBinding(None, Some(d)) =>
      if |m| <= d.planIdx then v == Nil
      else
        && 0 <= d.planIdx && d.col in m[d.planIdx] && 0 <= d.rowIdx < |m[d.planIdx][d.col]|
        && var e := m[d.planIdx][d.col][d.rowIdx];
           v == if e.stamp <= tick then e.data else Nil
  }

  /** Only the smallest 64-bit number wraps. */
  lemma PosIs(k: string)
    requires Atoi(k).Some?
    ensures Pos(k) == if Atoi(k).value == Int64.MIN then Int64.MAX else Atoi(k).value - 1
  {}

  /** With distinct positions every value is then at its place, and no index is out of range. */
  lemma ReadParamHolds(m: seq<Cols>, fix: map<string, ReadBinding>, order: seq<string>, tick: int, k: string)
    requires IsListing(order, fix.Keys) && DistinctPositions(fix.Keys) && k in fix
    requires ReadParam(m, fix, order, tick).Rows?
    ensures var p := ReadParam(m, fix, order, tick).rows;
      && Readable(m, k, fix[k]) && |p| == 1 && Pos(k) == Atoi(k).value - 1 && 0 <= Pos(k) < |p[0]|
      && ReadsAs(m, fix[k], tick, p[0][Pos(k)])
  {
    ReadParamIff(m, fix, order, tick);
    var w := MaxKey(order).value;
    PlacedAt(1, w, ReadBounds(m, fix, w, tick), order, k, 0);
    OneValue(m, k, fix[k], w, tick);
    PosIs(k);
  }

  /** Every map order gives the same row or the same failure. */
  ghost predicate ReadOrderIsIrrelevant(m: seq<Cols>, fix: map<string, ReadBinding>, tick: int) {
    forall o1, o2 | IsListing(o1, fix.Keys) && IsListing(o2, fix.Keys) ::
      ReadParam(m, fix, o1, tick) == ReadParam(m, fix, o2, tick)
  }

  /** The map order does not matter if and only if some key is no number; or every value can be read and the keys of one
      position read one value; or all bindings that fail do so alike. */
  lemma ReadParamIsDeterminedIff(m: seq<Cols>, fix: map<string, ReadBinding>, order: seq<string>, tick: int)
    requires IsListing(order, fix.Keys)
    ensures ReadOrderIsIrrelevant(m, fix, tick) <==>
      if exists k :: k in fix && Atoi(k).None? then true
      else if forall k | k in fix :: Readable(m, k, fix[k]) then
        forall j, k | j in fix && k in fix && Pos(j) == Pos(k) :: ReadValue(m, fix[j], tick) == ReadValue(m, fix[k], tick)
      else MaxKey(order).Some? && OneError(ReadBounds(m, fix, MaxKey(order).value, tick))
  {
    MaxKeyCovers(order);
    if MaxKey(order).None? {
      forall o | IsListing(o, fix.Keys) ensures ReadParam(m, fix, o, tick) == Failed(NotANumber) {
        WidthIsDetermined(order, o);
      }
    } else {
      var bounds := ReadBounds(m, fix, MaxKey(order).value, tick);
      OrderIsIrrelevantIff(1, MaxKey(order).value, bounds);
      ReadOrderIsPlaceOrder(m, fix, order, tick);
      forall k | k in fix ensures bounds[k].Bound? <==> Readable(m, k, fix[k]) {
        BoundIffReadable(m, fix, order, k, tick);
      }
      if AllBound(bounds) {
        ReadKeysAgreeIff(m, fix, MaxKey(order).value, tick);
      }
    }
  }

  lemma ReadOrderIsPlaceOrder(m: seq<Cols>, fix: map<string, ReadBinding>, order: seq<string>, tick: int)
    requires IsListing(order, fix.Keys) && MaxKey(order).Some?
    ensures var w := MaxKey(order).value;
      ReadOrderIsIrrelevant(m, fix, tick) <==> OrderIsIrrelevant(1, w, ReadBounds(m, fix, w, tick))
  {
    var w := MaxKey(order).value;
    var bounds := ReadBounds(m, fix, w, tick);
    forall o | IsListing(o, fix.Keys) ensures ReadParam(m, fix, o, tick) == Placed(1, w, bounds, o) {
      WidthIsDetermined(order, o);
    }
    if ReadOrderIsIrrelevant(m, fix, tick) {
      forall o1, o2 | IsListing(o1, bounds.Keys) && IsListing(o2, bounds.Keys)
        ensures Placed(1, w, bounds, o1) == Placed(1, w, bounds, o2)
      {
        assert ReadParam(m, fix, o1, tick) == ReadParam(m, fix, o2, tick);
      }
    }
  }

  lemma ReadClashIff(m: seq<Cols>, j: string, a: ReadBinding, k: string, b: ReadBinding, w: nat, tick: int)
    requires ReadBound(m, j, a, w, tick).Bound? && ReadBound(m, k, b, w, tick).Bound?
    ensures Clash(ReadBound(m, j, a, w, tick), ReadBound(m, k, b, w, tick)) <==>
      Pos(j) == Pos(k) && ReadValue(m, a, tick) != ReadValue(m, b, tick)
  {
    OneValue(m, j, a, w, tick);
    OneValue(m, k, b, w, tick);
    var x, y := ReadBound(m, j, a, w, tick), ReadBound(m, k, b, w, tick);
    if Pos(j) == Pos(k) {
      assert Writes(x, 0, Pos(j)) && Writes(y, 0, Pos(j));
    }
  }

  lemma ReadKeysAgreeIff(m: seq<Cols>, fix: map<string, ReadBinding>, w: nat, tick: int)
    requires AllBound(ReadBounds(m, fix, w, tick))
    ensures KeysAgree(ReadBounds(m, fix, w, tick)) <==>
      forall j, k | j in fix && k in fix && Pos(j) == Pos(k) :: ReadValue(m, fix[j], tick) == ReadValue(m, fix[k], tick)
  {
    var bounds := ReadBounds(m, fix, w, tick);
    forall j, k | j in fix && k in fix
      ensures Clash(bounds[j], bounds[k]) <==> Pos(j) == Pos(k) && ReadValue(m, fix[j], tick) != ReadValue(m, fix[k], tick)
    {
      assert bounds[j].Bound? && bounds[k].Bound?;
      ReadClashIff(m, j, fix[j], k, fix[k], w, tick);
    }
  }
}
