/** Columns placed into a matrix of nils at the positions their keys name: what makes it fail, what each cell holds,
    and exactly when the order of the visit matters. */
module ColumnPlacing {
  import Int64
  import opened Listings
  import opened Options
  import opened Values

  // ---------------------------------------------------------------- column positions

  predicate IsDigit(c: char) { '0' <= c <= '9' }

  function Digits(s: string): Option<nat> {
    if s == "" then Some(0)
    else
      var front := Digits(s[..|s| - 1]);
      if front.None? || !IsDigit(s[|s| - 1]) then None
      else Some(10 * front.value + (s[|s| - 1] as int - '0' as int))
  }

  /** A decimal number with an optional sign that fits 64 bits. */
  function Atoi(s: string): Option<int> {
    var signed := s != "" && (s[0] == '-' || s[0] == '+');
    var digits := if signed then s[1..] else s;
    var n := Digits(digits);
    if digits == "" || n.None? then None
    else
      var d: int := n.value;
      var v: int := if signed && s[0] == '-' then -d else d;
      if Int64.Fits(v) then Some(v) else None
  }

  /** The zero-based position a key names, negative if it names none; the smallest 64-bit number wraps to the largest
      position. */
  function Pos(k: string): int {
    if Atoi(k).Some? then Int64.Wrap(Atoi(k).value - 1) else -1
  }

  // ---------------------------------------------------------------- placing columns

  datatype BindError = NotANumber | BelowFirst | BeyondLast | GetFailed | Unset | Crash

  /** A bound column: where it goes and, row by row, what is written there (None leaves the cell alone). */
  datatype Bound = Bound(pos: nat, column: seq<Option<Value>>) | Fail(error: BindError)

  datatype Param = Rows(rows: seq<seq<Value>>) | Failed(error: BindError)

  function NilRows(n: nat, w: nat): seq<seq<Value>> {
    seq(n, _ => Nils(w))
  }

  predicate Fits(b: Bound, n: nat, w: nat) {
    b.Bound? ==> b.pos < w && |b.column| == n
  }

  predicate IsMatrix(rows: seq<seq<Value>>, n: nat, w: nat) {
    |rows| == n && forall r | 0 <= r < n :: |rows[r]| == w
  }

  function PutColumn(rows: seq<seq<Value>>, w: nat, b: Bound): (r: seq<seq<Value>>)
    requires b.Bound? && Fits(b, |rows|, w) && IsMatrix(rows, |rows|, w)
    ensures IsMatrix(r, |rows|, w)
  {
    seq(|rows|, i requires 0 <= i < |rows| => if b.column[i].Some? then rows[i][b.pos := b.column[i].value] else rows[i])
  }

  /** All columns in order into an `n` by `w` matrix of nils; the first failure is the result. */
  function PlaceAll(n: nat, w: nat, bs: seq<Bound>): (p: Param)
    requires forall b | b in bs :: Fits(b, n, w)
    ensures p.Rows? ==> IsMatrix(p.rows, n, w)
  {
    if bs == [] then Rows(NilRows(n, w))
    else
      var before, b := PlaceAll(n, w, bs[..|bs| - 1]), bs[|bs| - 1];
      if before.Failed? then before else if b.Fail? then Failed(b.error) else Rows(PutColumn(before.rows, w, b))
  }

  // ---------------------------------------------------------------- what each cell holds

  predicate Writes(b: Bound, r: nat, c: nat) {
    b.Bound? && b.pos == c && r < |b.column| && b.column[r].Some?
  }

  /** Two columns write different values to one cell. */
  ghost predicate Clash(a: Bound, b: Bound) {
    exists r: nat, c: nat :: Writes(a, r, c) && Writes(b, r, c) && a.column[r] != b.column[r]
  }

  ghost predicate Agree(bs: seq<Bound>) {
    forall a, b | a in bs && b in bs :: !Clash(a, b)
  }

  /** What the matrix holds at row `r`, column `c`: the value written there, nil if there is none. */
  ghost predicate CellIs(bs: seq<Bound>, r: nat, c: nat, v: Value) {
    && (forall b | b in bs && Writes(b, r, c) :: v == b.column[r].value)
    && ((forall b | b in bs :: !Writes(b, r, c)) ==> v == Nil)
  }

  lemma {:induction false} PlaceAllSucceedsIff(n: nat, w: nat, bs: seq<Bound>)
    requires forall b | b in bs :: Fits(b, n, w)
    ensures PlaceAll(n, w, bs).Rows? <==> forall b | b in bs :: b.Bound?
    decreases |bs|
  {
    if bs != [] {
      var k := |bs| - 1;
      PlaceAllSucceedsIff(n, w, bs[..k]);
      if PlaceAll(n, w, bs).Rows? {
        forall b | b in bs ensures b.Bound? {
          var i :| 0 <= i < |bs| && bs[i] == b;
          assert i < k ==> bs[..k][i] == b;
        }
      } else if PlaceAll(n, w, bs[..k]).Rows? {
        assert bs[k] in bs && bs[k].Fail?;
      } else {
        var b :| b in bs[..k] && b.Fail?;
        assert b in bs;
      }
    }
  }

  lemma {:induction false} PlaceAllCells(n: nat, w: nat, bs: seq<Bound>, r: nat, c: nat)
    requires forall b | b in bs :: Fits(b, n, w)
    requires PlaceAll(n, w, bs).Rows? && Agree(bs) && r < n && c < w
    ensures CellIs(bs, r, c, PlaceAll(n, w, bs).rows[r][c])
    decreases |bs|
  {
    if bs != [] {
      PlaceAllCells(n, w, bs[..|bs| - 1], r, c);
      PlaceOneMore(n, w, bs, r, c);
    }
  }

  lemma PlaceOneMore(n: nat, w: nat, bs: seq<Bound>, r: nat, c: nat)
    requires bs != [] && r < n && c < w && forall b | b in bs :: Fits(b, n, w)
    requires PlaceAll(n, w, bs).Rows? && Agree(bs)
    requires CellIs(bs[..|bs| - 1], r, c, PlaceAll(n, w, bs[..|bs| - 1]).rows[r][c])
    ensures CellIs(bs, r, c, PlaceAll(n, w, bs).rows[r][c])
  {
    var front, last := bs[..|bs| - 1], bs[|bs| - 1];
    assert last in bs;
    CellOneMore(front, last, r, c, PlaceAll(n, w, front).rows[r][c]);
    assert bs == front + [last];
  }

  lemma CellOneMore(front: seq<Bound>, last: Bound, r: nat, c: nat, v: Value)
    requires CellIs(front, r, c, v) && Agree(front + [last])
    ensures CellIs(front + [last], r, c, if Writes(last, r, c) then last.column[r].value else v)
  {
    var bs := front + [last];
    assert bs[|front|] == last;
    forall b | b in bs ensures b in front || b == last {}
    forall b | b in front ensures b in bs {}
    if Writes(last, r, c) {
      forall b | b in bs && Writes(b, r, c) ensures b.column[r] == last.column[r] {
        assert !Clash(b, last);
      }
    }
  }

  // ---------------------------------------------------------------- visiting a map

  predicate AllBound(bounds: map<string, Bound>) {
    forall k | k in bounds :: bounds[k].Bound?
  }

  predicate AllFit(bounds: map<string, Bound>, n: nat, w: nat) {
    forall k | k in bounds :: Fits(bounds[k], n, w)
  }

  function Visit(bounds: map<string, Bound>, order: seq<string>): seq<Bound>
    requires forall k | k in order :: k in bounds
  {
    seq(|order|, i requires 0 <= i < |order| => bounds[order[i]])
  }

  lemma VisitFits(n: nat, w: nat, bounds: map<string, Bound>, order: seq<string>)
    requires AllFit(bounds, n, w) && forall k | k in order :: k in bounds
    ensures forall b | b in Visit(bounds, order) :: Fits(b, n, w)
  {}

  function Placed(n: nat, w: nat, bounds: map<string, Bound>, order: seq<string>): (p: Param)
    requires AllFit(bounds, n, w) && forall k | k in order :: k in bounds
    ensures p.Rows? ==> IsMatrix(p.rows, n, w)
  {
    PlaceAll(n, w, Visit(bounds, order))
  }

  lemma VisitHolds(bounds: map<string, Bound>, order: seq<string>)
    requires IsListing(order, bounds.Keys)
    ensures forall k | k in bounds :: bounds[k] in Visit(bounds, order)
    ensures forall b | b in Visit(bounds, order) :: exists k :: k in bounds && bounds[k] == b
  {
    var bs := Visit(bounds, order);
    forall k | k in bounds ensures bounds[k] in bs {
      var i :| 0 <= i < |order| && order[i] == k;
      assert bs[i] == bounds[k];
    }
    forall b | b in bs ensures exists k :: k in bounds && bounds[k] == b {
      var i :| 0 <= i < |bs| && bs[i] == b;
      assert order[i] in order;
    }
  }

  /** No two keys write different values to one cell. */
  ghost predicate KeysAgree(bounds: map<string, Bound>) {
    forall j, k | j in bounds && k in bounds :: !Clash(bounds[j], bounds[k])
  }

  ghost predicate KeyCell(bounds: map<string, Bound>, r: nat, c: nat, v: Value) {
    && (forall k | k in bounds && Writes(bounds[k], r, c) :: v == bounds[k].column[r].value)
    && ((forall k | k in bounds :: !Writes(bounds[k], r, c)) ==> v == Nil)
  }

  /** Placing succeeds exactly when no binding failed; if none contradict each other each cell holds what is written
      there, and nil where nothing is. */
  lemma PlacedIff(n: nat, w: nat, bounds: map<string, Bound>, order: seq<string>)
    requires AllFit(bounds, n, w) && IsListing(order, bounds.Keys)
    ensures Placed(n, w, bounds, order).Rows? <==> AllBound(bounds)
    ensures Placed(n, w, bounds, order).Rows? && KeysAgree(bounds) ==>
      forall r, c | 0 <= r < n && 0 <= c < w :: KeyCell(bounds, r, c, Placed(n, w, bounds, order).rows[r][c])
  {
    var bs := Visit(bounds, order);
    VisitHolds(bounds, order);
    PlaceAllSucceedsIff(n, w, bs);
    if Placed(n, w, bounds, order).Rows? && KeysAgree(bounds) {
      assert Agree(bs);
      forall r, c | 0 <= r < n && 0 <= c < w ensures KeyCell(bounds, r, c, PlaceAll(n, w, bs).rows[r][c]) {
        PlaceAllCells(n, w, bs, r, c);
        CellOfKeys(bounds, order, r, c, PlaceAll(n, w, bs).rows[r][c]);
      }
    }
  }

  lemma CellOfKeys(bounds: map<string, Bound>, order: seq<string>, r: nat, c: nat, v: Value)
    requires IsListing(order, bounds.Keys) && CellIs(Visit(bounds, order), r, c, v)
    ensures KeyCell(bounds, r, c, v)
  {
    VisitHolds(bounds, order);
  }

  // ---------------------------------------------------------------- when the order matters

  /** All bindings that fail do so alike. */
  predicate OneError(bounds: map<string, Bound>) {
    forall j, k | j in bounds && k in bounds && bounds[j].Fail? && bounds[k].Fail? :: bounds[j].error == bounds[k].error
  }

  /** Every visiting order gives the same rows or the same failure. */
  ghost predicate OrderIsIrrelevant(n: nat, w: nat, bounds: map<string, Bound>)
    requires AllFit(bounds, n, w)
  {
    forall o1, o2 | IsListing(o1, bounds.Keys) && IsListing(o2, bounds.Keys) ::
      Placed(n, w, bounds, o1) == Placed(n, w, bounds, o2)
  }

  lemma AgreeingKeysPlaceAlike(n: nat, w: nat, bounds: map<string, Bound>, o1: seq<string>, o2: seq<string>)
    requires AllFit(bounds, n, w) && IsListing(o1, bounds.Keys) && IsListing(o2, bounds.Keys)
    requires AllBound(bounds) && KeysAgree(bounds)
    ensures Placed(n, w, bounds, o1) == Placed(n, w, bounds, o2)
  {
    PlacedIff(n, w, bounds, o1);
    PlacedIff(n, w, bounds, o2);
    var p, q := Placed(n, w, bounds, o1), Placed(n, w, bounds, o2);
    forall r | 0 <= r < n ensures p.rows[r] == q.rows[r] {
      forall c | 0 <= c < w ensures p.rows[r][c] == q.rows[r][c] {
        assert KeyCell(bounds, r, c, p.rows[r][c]) && KeyCell(bounds, r, c, q.rows[r][c]);
      }
    }
  }

  lemma {:induction false} FailureIsOfABound(n: nat, w: nat, bs: seq<Bound>)
    requires (forall b | b in bs :: Fits(b, n, w)) && PlaceAll(n, w, bs).Failed?
    ensures Fail(PlaceAll(n, w, bs).error) in bs
    decreases |bs|
  {
    if PlaceAll(n, w, bs[..|bs| - 1]).Failed? {
      FailureIsOfABound(n, w, bs[..|bs| - 1]);
    }
  }

  lemma {:induction false} FirstFailureDecides(n: nat, w: nat, bs: seq<Bound>)
    requires (forall b | b in bs :: Fits(b, n, w)) && bs != [] && bs[0].Fail?
    ensures PlaceAll(n, w, bs) == Failed(bs[0].error)
    decreases |bs|
  {
    if |bs| > 1 {
      FirstFailureDecides(n, w, bs[..|bs| - 1]);
    }
  }

  /** A failing binding visited first decides the result. */
  lemma FirstVisitDecides(n: nat, w: nat, bounds: map<string, Bound>, k: string) returns (order: seq<string>)
    requires AllFit(bounds, n, w) && k in bounds && bounds[k].Fail?
    ensures IsListing(order, bounds.Keys) && Placed(n, w, bounds, order) == Failed(bounds[k].error)
  {
    order := ListingStartingWith(bounds.Keys, k);
    VisitFits(n, w, bounds, order);
    FirstFailureDecides(n, w, Visit(bounds, order));
  }

  lemma OneErrorFailsAlike(n: nat, w: nat, bounds: map<string, Bound>, k: string, order: seq<string>)
    requires AllFit(bounds, n, w) && IsListing(order, bounds.Keys) && OneError(bounds) && k in bounds && bounds[k].Fail?
    ensures Placed(n, w, bounds, order) == Failed(bounds[k].error)
  {
    PlacedIff(n, w, bounds, order);
    VisitFits(n, w, bounds, order);
    FailureIsOfABound(n, w, Visit(bounds, order));
    VisitHolds(bounds, order);
  }

  /** The binding visited last wins. */
  lemma LastWriteWins(n: nat, w: nat, bounds: map<string, Bound>, k: string, r: nat, c: nat)
    returns (order: seq<string>)
    requires AllFit(bounds, n, w) && k in bounds && Writes(bounds[k], r, c) && r < n && c < w
    requires AllBound(bounds)
    ensures IsListing(order, bounds.Keys)
    ensures Placed(n, w, bounds, order).Rows? && Placed(n, w, bounds, order).rows[r][c] == bounds[k].column[r].value
  {
    order := ListingEndingIn(bounds.Keys, k);
    PlacedIff(n, w, bounds, order);
    var bs := Visit(bounds, order);
    assert bs[|bs| - 1] == bounds[k];
  }

  /** Exactly when the order of the visit does not matter: no two bindings write different values to one cell, or, where
      some fail, all of those fail alike. */
  lemma OrderIsIrrelevantIff(n: nat, w: nat, bounds: map<string, Bound>)
    requires AllFit(bounds, n, w)
    ensures OrderIsIrrelevant(n, w, bounds) <==> if AllBound(bounds) then KeysAgree(bounds) else OneError(bounds)
  {
    if AllBound(bounds) {
      WritesMustAgree(n, w, bounds);
    } else {
      ErrorsMustAgree(n, w, bounds);
    }
  }

  lemma WritesMustAgree(n: nat, w: nat, bounds: map<string, Bound>)
    requires AllFit(bounds, n, w) && AllBound(bounds)
    ensures OrderIsIrrelevant(n, w, bounds) <==> KeysAgree(bounds)
  {
    if KeysAgree(bounds) {
      forall o1, o2 | IsListing(o1, bounds.Keys) && IsListing(o2, bounds.Keys)
        ensures Placed(n, w, bounds, o1) == Placed(n, w, bounds, o2)
      {
        AgreeingKeysPlaceAlike(n, w, bounds, o1, o2);
      }
    } else {
      var j, k :| j in bounds && k in bounds && Clash(bounds[j], bounds[k]);
      var r: nat, c: nat :| Writes(bounds[j], r, c) && Writes(bounds[k], r, c) && bounds[j].column[r] != bounds[k].column[r];
      var o1 := LastWriteWins(n, w, bounds, j, r, c);
      var o2 := LastWriteWins(n, w, bounds, k, r, c);
      assert Placed(n, w, bounds, o1) != Placed(n, w, bounds, o2);
    }
  }

  lemma ErrorsMustAgree(n: nat, w: nat, bounds: map<string, Bound>)
    requires AllFit(bounds, n, w) && !AllBound(bounds)
    ensures OrderIsIrrelevant(n, w, bounds) <==> OneError(bounds)
  {
    if OneError(bounds) {
      var k :| k in bounds && bounds[k].Fail?;
      forall o | IsListing(o, bounds.Keys) ensures Placed(n, w, bounds, o) == Failed(bounds[k].error) {
        OneErrorFailsAlike(n, w, bounds, k, o);
      }
    } else {
      var j, k :| j in bounds && k in bounds && bounds[j].Fail? && bounds[k].Fail? && bounds[j].error != bounds[k].error;
      var o1 := FirstVisitDecides(n, w, bounds, j);
      var o2 := FirstVisitDecides(n, w, bounds, k);
      assert Placed(n, w, bounds, o1) != Placed(n, w, bounds, o2);
    }
  }

  // ---------------------------------------------------------------- distinct positions

  /** Two keys such as "1" and "01" name the same position. */
  predicate DistinctPositions(keys: set<string>) {
    forall j, k | j in keys && k in keys && j != k && Pos(j) >= 0 :: Pos(j) != Pos(k)
  }

  /** Every bound column goes where its key says. */
  predicate KeysPlace(bounds: map<string, Bound>) {
    forall k | k in bounds && bounds[k].Bound? :: bounds[k].pos == Pos(k)
  }

  /** With distinct positions every bound column is found at its place, nil where it writes nothing. */
  lemma PlacedAt(n: nat, w: nat, bounds: map<string, Bound>, order: seq<string>, k: string, r: nat)
    requires AllFit(bounds, n, w) && IsListing(order, bounds.Keys) && Placed(n, w, bounds, order).Rows?
    requires KeysPlace(bounds) && DistinctPositions(bounds.Keys) && k in bounds && r < n
    ensures bounds[k].Bound? && bounds[k].pos == Pos(k) && Pos(k) < w && |bounds[k].column| == n
    ensures Placed(n, w, bounds, order).rows[r][Pos(k)] == if bounds[k].column[r].Some? then bounds[k].column[r].value else Nil
  {
    PlacedIff(n, w, bounds, order);
    assert bounds[k].Bound? && KeysAgree(bounds);
    assert KeyCell(bounds, r, Pos(k), Placed(n, w, bounds, order).rows[r][Pos(k)]);
    assert forall j | j in bounds && Writes(bounds[j], r, Pos(k)) :: j == k;
  }

  lemma NothingPlacedAt(n: nat, w: nat, bounds: map<string, Bound>, order: seq<string>, r: nat, c: nat)
    requires AllFit(bounds, n, w) && IsListing(order, bounds.Keys) && Placed(n, w, bounds, order).Rows?
    requires KeysPlace(bounds) && DistinctPositions(bounds.Keys) && r < n && c < w
    requires forall k | k in bounds :: Pos(k) != c
    ensures Placed(n, w, bounds, order).rows[r][c] == Nil
  {
    PlacedIff(n, w, bounds, order);
    assert KeysAgree(bounds);
    assert KeyCell(bounds, r, c, Placed(n, w, bounds, order).rows[r][c]);
  }
}
