/**
 * The spreadsheet as the dashboard script receives it: a rectangular grid of
 * cells (a pandas DataFrame read from the workbook), and positional slicing
 * of it (`DataFrame.iloc`).
 */
module Sheets {

  /** The value `limpar_valor` makes of a currency cell; the model does no arithmetic on it. */
  type Amount = real

  type MonthNumber = m: int | 1 <= m <= 12 witness 1

  /** A calendar date as `pd.to_datetime` yields it (a Timestamp). */
  datatype Date = Date(year: int, month: MonthNumber, day: int)

  /**
   * What one cell of a frame can hold in this script: an empty cell (NaN),
   * text, a number, an integer column value (`.dt.year`, `.dt.month`), a
   * timestamp, or the missing timestamp NaT.
   */
  datatype Cell =
    | Blank
    | Text(text: string)
    | Number(value: real)
    | Int(n: int)
    | Stamp(date: Date)
    | NaT

  /** pandas' `isna`: NaN and NaT are missing, every other value is present. */
  predicate IsNa(c: Cell) {
    c.Blank? || c.NaT?
  }

  predicate Rectangular(rows: seq<seq<Cell>>, width: nat) {
    forall i :: 0 <= i < |rows| ==> |rows[i]| == width
  }

  /** A sheet: its number of columns (`df.shape[1]`) and its rows. */
  datatype Grid = Grid(width: nat, rows: seq<seq<Cell>>) {
    predicate Valid() {
      Rectangular(rows, width)
    }
  }

  function Min(a: nat, b: nat): nat {
    if a <= b then a else b
  }

  /**
   * `g.iloc[r0:, c0:c1]`: the rows from position r0 on and the columns from
   * c0 up to (not including) c1. As in pandas, slice bounds past the end of
   * the grid are clipped instead of failing.
   */
  function ILoc(g: Grid, r0: nat, c0: nat, c1: nat): (s: Grid)
    requires g.Valid()
    ensures s.Valid()
    ensures s.width == (if c1 <= g.width && c0 <= c1 then c1 - c0
                        else if c0 < g.width && g.width < c1 then g.width - c0
                        else 0)
    ensures |s.rows| == (if r0 <= |g.rows| then |g.rows| - r0 else 0)
    ensures forall i, j :: 0 <= i < |s.rows| && 0 <= j < s.width ==>
              s.rows[i][j] == g.rows[r0 + i][c0 + j]
  {
    var top, lo, hi := Min(r0, |g.rows|), Min(c0, g.width), Min(c1, g.width);
    var width := if lo <= hi then hi - lo else 0;
    Grid(width, seq(|g.rows| - top, i requires 0 <= i < |g.rows| - top => g.rows[top + i][lo..lo + width]))
  }
}
