/**
 * How the columns of a table are cut into consecutive parts of at most
 * `width` columns: `(columns + width - 1) // width` parts, part `i` spanning
 * the half-open range `[i * width, min((i + 1) * width, columns))`.
 */
module Partition {
  import opened Tables

  function Min(a: nat, b: nat): nat { if a <= b then a else b }

  /** `num_files = (total_columns + max_columns - 1) // max_columns`. */
  function NumParts(columns: nat, width: nat): nat
    requires width >= 1
  {
    (columns + width - 1) / width
  }

  function PartStart(i: nat, width: nat): nat { i * width }

  function PartEnd(i: nat, width: nat, columns: nat): nat { Min((i + 1) * width, columns) }

  lemma MulMonotone(a: nat, b: nat, width: nat)
    requires a <= b
    ensures a * width <= b * width
  {
  }

  /** The part count is the ceiling of columns / width: the least n with n * width >= columns. */
  lemma NumPartsIsCeiling(columns: nat, width: nat)
    requires width >= 1
    ensures columns <= NumParts(columns, width) * width
    ensures NumParts(columns, width) > 0 ==> (NumParts(columns, width) - 1) * width < columns
    ensures NumParts(columns, width) == 0 <==> columns == 0
  {
  }

  /**
   * Each part is non-empty, at most `width` wide and inside the table; part 0
   * starts at column 0, each part ends where the next starts, and the last
   * part ends at the last column.
   */
  lemma PartBounds(columns: nat, width: nat, i: nat)
    requires width >= 1 && i < NumParts(columns, width)
    ensures PartStart(i, width) < PartEnd(i, width, columns) <= columns
    ensures PartEnd(i, width, columns) - PartStart(i, width) <= width
    ensures i == 0 ==> PartStart(i, width) == 0
    ensures i + 1 < NumParts(columns, width) ==> PartEnd(i, width, columns) == PartStart(i + 1, width)
    ensures i + 1 == NumParts(columns, width) ==> PartEnd(i, width, columns) == columns
  {
    var n := NumParts(columns, width);
    NumPartsIsCeiling(columns, width);
    MulMonotone(i, n - 1, width);
    assert (i + 1) * width == i * width + width;
    if i + 1 < n {
      MulMonotone(i + 1, n - 1, width);
    }
  }

  /** Column `j` lies in part `j / width` and in no other part. */
  lemma ColumnInExactlyOnePart(columns: nat, width: nat, j: nat)
    requires width >= 1 && j < columns
    ensures j / width < NumParts(columns, width)
    ensures PartStart(j / width, width) <= j < PartEnd(j / width, width, columns)
    ensures forall i :: 0 <= i < NumParts(columns, width) && PartStart(i, width) <= j < PartEnd(i, width, columns) ==> i == j / width
  {
    var n, q, r := NumParts(columns, width), j / width, j % width;
    NumPartsIsCeiling(columns, width);
    assert j == q * width + r;
    assert (q + 1) * width == q * width + width;
    if q >= n {
      MulMonotone(n, q, width);
      assert false;
    }
    forall i | 0 <= i < n && PartStart(i, width) <= j < PartEnd(i, width, columns)
      ensures i == q
    {
      if i < q {
        MulMonotone(i + 1, q, width);
        assert false;
      } else if i > q {
        MulMonotone(q + 1, i, width);
        assert false;
      }
    }
  }

  /** Part `i` of table `t`: all rows, only the columns of the part's range. */
  function Part(t: Table, width: nat, i: nat): (p: Table)
    requires t.WellFormed() && width >= 1 && i < NumParts(t.Columns(), width)
    ensures p.WellFormed() && |p.rows| == |t.rows|
    ensures 1 <= p.Columns() <= width
    ensures PartStart(i, width) + p.Columns() == PartEnd(i, width, t.Columns()) <= t.Columns()
    ensures forall j :: 0 <= j < p.Columns() ==> p.headers[j] == t.headers[PartStart(i, width) + j]
    ensures forall k, j :: 0 <= k < |t.rows| && 0 <= j < p.Columns() ==> p.rows[k][j] == t.rows[k][PartStart(i, width) + j]
  {
    var lo, hi := PartStart(i, width), PartEnd(i, width, t.Columns());
    PartBounds(t.Columns(), width, i);
    SliceColumns(t, lo, hi)
  }

  /** All parts of `t`, in part order. */
  function Parts(t: Table, width: nat): (ps: seq<Table>)
    requires t.WellFormed() && width >= 1
    ensures |ps| == NumParts(t.Columns(), width)
    ensures forall p :: p in ps ==> p.WellFormed() && |p.rows| == |t.rows|
  {
    seq(NumParts(t.Columns(), width), i requires 0 <= i < NumParts(t.Columns(), width) => Part(t, width, i))
  }

  /** Joining the parts from `i` on gives the columns from part `i`'s start to the end. */
  lemma {:induction false} JoinPartsFrom(t: Table, width: nat, i: nat)
    requires t.WellFormed() && width >= 1 && i <= NumParts(t.Columns(), width)
    ensures JoinColumns(Parts(t, width)[i..], |t.rows|) == SliceColumns(t, Min(PartStart(i, width), t.Columns()), t.Columns())
    decreases NumParts(t.Columns(), width) - i
  {
    var n, c, ps := NumParts(t.Columns(), width), t.Columns(), Parts(t, width);
    NumPartsIsCeiling(c, width);
    if i == n {
      assert ps[i..] == [];
      assert Min(PartStart(i, width), c) == c;
      SliceWhole(t);
    } else {
      PartBounds(c, width, i);
      JoinPartsFrom(t, width, i + 1);
      assert ps[i..][1..] == ps[i + 1..];
      assert ps[i..][0] == Part(t, width, i);
      assert Min(PartStart(i + 1, width), c) == PartEnd(i, width, c);
      BesideSlices(t, PartStart(i, width), PartEnd(i, width, c), c);
    }
  }

  /**
   * Round trip: concatenating all parts column-wise, in part order, gives
   * back the original table (same headers, same cells, same row order).
   */
  lemma JoinPartsRoundTrip(t: Table, width: nat)
    requires t.WellFormed() && width >= 1
    ensures JoinColumns(Parts(t, width), |t.rows|) == t
  {
    JoinPartsFrom(t, width, 0);
    assert Parts(t, width)[0..] == Parts(t, width);
    SliceWhole(t);
  }
}
