/**
 * The tabular dataset a spreadsheet's first sheet is loaded into: ordered
 * column headers and rows of cells, every row as wide as the header row.
 */
module Tables {

  /** One cell; `Blank` is the explicit marker of a missing value. */
  datatype Cell = Blank | Value(text: string)

  datatype Table = Table(headers: seq<string>, rows: seq<seq<Cell>>)
  {
    function Columns(): nat { |headers| }

    /** Every row holds exactly one cell per header. */
    predicate WellFormed() {
      forall k :: 0 <= k < |rows| ==> |rows[k]| == |headers|
    }
  }

  /** A table of `height` rows and no columns. */
  function Empty(height: nat): (e: Table)
    ensures e.WellFormed() && e.Columns() == 0 && |e.rows| == height
  {
    Table([], seq(height, _ => []))
  }

  /**
   * Positional column selection `df.iloc[:, lo:hi]`: every row, in order,
   * cut down to columns `lo` (inclusive) to `hi` (exclusive).
   */
  function SliceColumns(t: Table, lo: nat, hi: nat): (s: Table)
    requires t.WellFormed() && lo <= hi <= t.Columns()
    ensures s.WellFormed() && s.Columns() == hi - lo && |s.rows| == |t.rows|
    ensures forall j :: 0 <= j < hi - lo ==> s.headers[j] == t.headers[lo + j]
    ensures forall k, j :: 0 <= k < |t.rows| && 0 <= j < hi - lo ==> s.rows[k][j] == t.rows[k][lo + j]
  {
    Table(t.headers[lo..hi], seq(|t.rows|, k requires 0 <= k < |t.rows| => t.rows[k][lo..hi]))
  }

  /** Column-wise concatenation of two tables with the same rows count. */
  function Beside(a: Table, b: Table): (r: Table)
    requires a.WellFormed() && b.WellFormed() && |a.rows| == |b.rows|
    ensures r.WellFormed() && |r.rows| == |a.rows| && r.Columns() == a.Columns() + b.Columns()
  {
    Table(a.headers + b.headers, seq(|a.rows|, k requires 0 <= k < |a.rows| => a.rows[k] + b.rows[k]))
  }

  /** Column-wise concatenation of a sequence of tables, left to right. */
  function JoinColumns(parts: seq<Table>, height: nat): (r: Table)
    requires forall p :: p in parts ==> p.WellFormed() && |p.rows| == height
    ensures r.WellFormed() && |r.rows| == height
  {
    if parts == [] then Empty(height)
    else Beside(parts[0], JoinColumns(parts[1..], height))
  }

  /** Two adjacent column slices placed side by side give the slice that spans both. */
  lemma BesideSlices(t: Table, a: nat, b: nat, c: nat)
    requires t.WellFormed() && a <= b <= c <= t.Columns()
    ensures Beside(SliceColumns(t, a, b), SliceColumns(t, b, c)) == SliceColumns(t, a, c)
  {
    var left, right, whole := SliceColumns(t, a, b), SliceColumns(t, b, c), SliceColumns(t, a, c);
    var joined := Beside(left, right);
    assert joined.headers == whole.headers by {
      assert t.headers[a..b] + t.headers[b..c] == t.headers[a..c];
    }
    forall k | 0 <= k < |t.rows|
      ensures joined.rows[k] == whole.rows[k]
    {
      assert t.rows[k][a..b] + t.rows[k][b..c] == t.rows[k][a..c];
    }
  }

  /** The full-width slice is the table itself, and the empty slice is a table of no columns. */
  lemma SliceWhole(t: Table)
    requires t.WellFormed()
    ensures SliceColumns(t, 0, t.Columns()) == t
    ensures SliceColumns(t, t.Columns(), t.Columns()) == Empty(|t.rows|)
  {
    var w := SliceColumns(t, 0, t.Columns());
    forall k | 0 <= k < |t.rows|
      ensures w.rows[k] == t.rows[k]
    {
      assert t.rows[k][0..t.Columns()] == t.rows[k];
    }
    assert w.headers == t.headers;
    var e := SliceColumns(t, t.Columns(), t.Columns());
    assert e.rows == Empty(|t.rows|).rows;
  }
}
