/** Database values, and rows of them with a tail of nils. */
module Values {
  datatype Value = Nil | Text(s: string) | Number(n: int)

  /** The value at `i`; a missing cell is nil. */
  function At(row: seq<Value>, i: nat): Value {
    if i < |row| then row[i] else Nil
  }

  function Nils(n: nat): seq<Value> {
    seq(n, _ => Nil)
  }

  /** One plus the index of the last value that is not nil, 0 if there is none. */
  function RowSize(row: seq<Value>): (n: nat)
    ensures n <= |row|
  {
    if row == [] then 0 else if row[|row| - 1] != Nil then |row| else RowSize(row[..|row| - 1])
  }

  function Trim(row: seq<Value>): seq<Value> {
    row[..RowSize(row)]
  }

  /** `n` ends the row: nothing but nils from `n` on, and no nil just before. */
  ghost predicate EndsAt(row: seq<Value>, n: nat) {
    && (forall i: nat | n <= i :: At(row, i) == Nil)
    && (n > 0 ==> At(row, n - 1) != Nil)
  }

  /** The size is the only place where the row ends. */
  lemma {:induction false} RowSizeIff(row: seq<Value>, n: nat)
    ensures EndsAt(row, n) <==> n == RowSize(row)
    decreases |row|
  {
    RowEndsAtItsSize(row);
  }

  lemma {:induction false} RowEndsAtItsSize(row: seq<Value>)
    ensures EndsAt(row, RowSize(row))
    decreases |row|
  {
    if row != [] && row[|row| - 1] == Nil {
      var front := row[..|row| - 1];
      RowEndsAtItsSize(front);
      assert forall i: nat :: At(row, i) == At(front, i);
    }
  }

  /** Rows that read the same trim to the same row, and trimming does not change what is read. */
  lemma TrimReads(a: seq<Value>, b: seq<Value>)
    ensures (forall i: nat :: At(a, i) == At(b, i)) <==> Trim(a) == Trim(b)
    ensures forall i: nat :: At(Trim(a), i) == At(a, i)
  {
    RowEndsAtItsSize(a);
    RowEndsAtItsSize(b);
    if forall i: nat :: At(a, i) == At(b, i) {
      assert EndsAt(b, RowSize(a));
      RowSizeIff(b, RowSize(a));
      forall i | 0 <= i < RowSize(a) ensures a[i] == b[i] {
        assert At(a, i) == At(b, i);
      }
    }
    if Trim(a) == Trim(b) {
      forall i: nat ensures At(a, i) == At(b, i) {
        assert At(Trim(a), i) == At(Trim(b), i);
      }
    }
  }
}
