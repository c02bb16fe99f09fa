/** The first plan buffer as the object it is: one map of row arrays per plan, changed in place. */
module RowBuffer {
  import opened Options
  import opened Values
  import opened RowFill

  /** How a write ends; a crash is a run-time panic. */
  datatype Outcome = Stored | OverflowError | MismatchError | Crashed

  /** The outcome and the new contents are those of the specification; an error leaves the buffer alone. */
  ghost predicate Agrees(o: Outcome, before: seq<Cols>, after: seq<Cols>, r: SetResult) {
    match r
    case Done(m) => o == Stored && after == m
    case Overflow => o == OverflowError && after == before
    case NotMatching => o == MismatchError && after == before
    case Panic => o == Crashed
  }

  /** `n` is the length of the longest array of a slot, 0 if there is none. */
  ghost predicate LongestIs(m: Cols, keys: set<string>, n: nat)
    requires keys <= m.Keys
  {
    && (forall c | c in keys :: |m[c]| <= n)
    && (n > 0 ==> exists c | c in keys :: |m[c]| == n)
  }

  class Buffer {
    var m: seq<Cols>
    const cfg: Config

    constructor (count: nat, rowInitCap: int, rowIdleSec: int)
      ensures m == seq(count, _ => map[]) && cfg == Config(rowInitCap, rowIdleSec)
    {
      m := seq(count, _ => map[]);
      cfg := Config(rowInitCap, rowIdleSec);
    }

    method Get(idx: int, col: string, row: int, tick: int) returns (r: GetResult)
      ensures r == RowFill.Get(m, idx, col, row, tick)
      ensures r == OutLen <==> 0 <= idx < |m| && |ColumnIn(m[idx], col)| <= row
      ensures r == GetPanic <==> idx < 0 || (idx < |m| && row < 0)
      ensures r.Got? ==> r.value == if idx < |m| && m[idx][col][row].stamp <= tick then m[idx][col][row].data else Nil
    {
      if |m| <= idx {
        return Got(Nil);
      }
      if idx < 0 {
        return GetPanic;
      }
      var plan := m[idx];
      if |ColumnIn(plan, col)| <= row {
        return OutLen;
      }
      if row < 0 {
        return GetPanic;
      }
      if plan[col][row].stamp > tick {
        return Got(Nil);
      }
      return Got(plan[col][row].data);
    }

    method Set(idx: int, col: string, row: int, value: Value, tick: int) returns (o: Outcome)
      modifies this`m
      ensures Agrees(o, old(m), m, RowFill.Set(cfg, old(m), idx, col, row, value, tick))
      ensures o == OverflowError <==> |old(m)| <= idx
      ensures o == Stored ==> 0 <= row < |ColumnIn(m[idx], col)| && m[idx][col][row] == Entry(value, tick)
    {
      if |m| <= idx {
        return OverflowError;
      }
      if idx < 0 || row < 0 {
        return Crashed;
      }
      var es := Written(ColumnIn(m[idx], col), row, value, tick);
      if es.None? {
        return Crashed;
      }
      m := m[idx := m[idx][col := es.value]];
      return Stored;
    }

    /** The array after a write: grown if the row is past its end, rebuilt if its last entry is stale. */
    method Written(es: seq<Entry>, row: nat, value: Value, tick: int) returns (r: Option<seq<Entry>>)
      ensures r == SetEntry(cfg, es, row, value, tick)
    {
      var temp := es;
      if |es| <= row {
        if |es| + cfg.rowCap < 0 {
          return None;
        }
        temp := Copied(es, |es| + cfg.rowCap);
      } else if Stale(cfg, es[|es| - 1], tick) {
        if row + cfg.rowCap < 0 {
          return None;
        }
        temp := Copied(es, row + cfg.rowCap);
      }
      if |temp| <= row {
        return None;
      }
      assert |temp| == |es| ==> Copied(es, |temp|) == es;
      return Some(temp[row := Entry(value, tick)]);
    }

    method MaxColSize(idx: nat) returns (r: Option<nat>)
      ensures r == if |m| <= idx then None else Some(|m[idx]|)
    {
      if |m| <= idx {
        return None;
      }
      return Some(|m[idx]|);
    }

    method MaxRowSize(idx: nat) returns (r: Option<nat>)
      ensures r.None? <==> |m| <= idx
      ensures r.Some? ==> LongestIs(m[idx], m[idx].Keys, r.value)
    {
      if |m| <= idx {
        return None;
      }
      var plan, cnt: nat := m[idx], 0;
      var rest := plan.Keys;
      while rest != {}
        invariant rest <= plan.Keys && LongestIs(plan, plan.Keys - rest, cnt)
      {
        var c :| c in rest;
        var done := plan.Keys - rest;
        rest := rest - {c};
        assert plan.Keys - rest == done + {c};
        if cnt < |plan[c]| {
          cnt := |plan[c]|;
        }
      }
      assert plan.Keys - rest == plan.Keys;
      return Some(cnt);
    }

    /** The number of columns of the widest slot and the length of the longest array of all. */
    method MaxSize() returns (cols: nat, rows: nat)
      ensures SizesOf(m, cols, rows)
    {
      cols, rows := 0, 0;
      var idx := 0;
      while idx < |m|
        invariant idx <= |m| && SizesOf(m[..idx], cols, rows)
      {
        var c := MaxColSize(idx);
        var r := MaxRowSize(idx);
        SizesOneMore(m[..idx], m[idx], cols, rows, r.value);
        assert m[..idx + 1] == m[..idx] + [m[idx]];
        cols, rows := Larger(cols, c.value), Larger(rows, r.value);
        idx := idx + 1;
      }
      assert m[..idx] == m;
    }
  }

  function Larger(a: nat, b: nat): nat {
    if a < b then b else a
  }

  lemma SizesOneMore(front: seq<Cols>, slot: Cols, cols: nat, rows: nat, r: nat)
    requires SizesOf(front, cols, rows) && LongestIs(slot, slot.Keys, r)
    ensures SizesOf(front + [slot], Larger(cols, |slot|), Larger(rows, r))
  {
    var m := front + [slot];
    assert forall i | 0 <= i < |front| :: front[i] == m[i];
    assert m[|front|] == slot;
    if cols > |slot| {
      var i :| 0 <= i < |front| && |front[i]| == cols;
      assert |m[i]| == cols;
    }
    if rows > r {
      var i, c :| 0 <= i < |front| && c in front[i] && |front[i][c]| == rows;
      assert c in m[i] && |m[i][c]| == rows;
    } else if r > 0 {
      var c :| c in slot && |slot[c]| == r;
    }
  }

  /** No other pair of numbers meets the description of the sizes. */
  lemma SizesAreDetermined(m: seq<Cols>, c1: nat, r1: nat, c2: nat, r2: nat)
    requires SizesOf(m, c1, r1) && SizesOf(m, c2, r2)
    ensures c1 == c2 && r1 == r2
  {}
}
