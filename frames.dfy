/**
 * A pandas DataFrame as the cleaning pass uses it: named columns over
 * rectangular rows, column assignment `df[target] = f(df[source])` and
 * `df.dropna(subset=[name], inplace=True)`, both applied in place.
 */
module Frames {
  import opened Sheets

  predicate Distinct(names: seq<string>) {
    forall i, j :: 0 <= i < j < |names| ==> names[i] != names[j]
  }

  /** The position of a column label, as `df[name]` looks it up. */
  function IndexOf(names: seq<string>, name: string): (k: nat)
    requires name in names
    ensures k < |names| && names[k] == name
    ensures forall j :: 0 <= j < k ==> names[j] != name
  {
    if names[0] == name then 0 else 1 + IndexOf(names[1..], name)
  }

  /** The labels after `df[target] = ...`: an existing column is overwritten, a new one is appended. */
  function WithColumn(names: seq<string>, target: string): (r: seq<string>)
    ensures target in r && names <= r
    ensures |r| == if target in names then |names| else |names| + 1
    ensures Distinct(names) ==> Distinct(r)
    ensures IndexOf(r, target) == if target in names then IndexOf(names, target) else |names|
  {
    if target in names then names else names + [target]
  }

  /** One row after its cell at position t is set to v (t == |row| appends a cell). */
  function SetCell(row: seq<Cell>, t: nat, v: Cell): seq<Cell>
    requires t <= |row|
  {
    if t < |row| then row[t := v] else row + [v]
  }

  /**
   * The rows after `df[<column t>] = df[<column k>].map(f)`: every row gets
   * f of its own cell k at position t, and keeps every other cell.
   */
  function AssignColumn(rows: seq<seq<Cell>>, width: nat, t: nat, k: nat, f: Cell -> Cell): (r: seq<seq<Cell>>)
    requires Rectangular(rows, width) && t <= width && k < width
    ensures Rectangular(r, if t < width then width else width + 1)
    ensures |r| == |rows|
    ensures forall i :: 0 <= i < |r| ==> r[i][t] == f(rows[i][k])
    ensures forall i, j :: 0 <= i < |r| && 0 <= j < width && j != t ==> r[i][j] == rows[i][j]
  {
    seq(|rows|, i requires 0 <= i < |rows| => SetCell(rows[i], t, f(rows[i][k])))
  }

  /** The rows whose cell k is not missing, in their original order. */
  function DropNaRows(rows: seq<seq<Cell>>, width: nat, k: nat): (r: seq<seq<Cell>>)
    requires Rectangular(rows, width) && k < width
    ensures Rectangular(r, width)
    ensures |r| <= |rows|
    ensures forall i :: 0 <= i < |r| ==> !IsNa(r[i][k])
    decreases |rows|
  {
    if rows == [] then []
    else
      var n := |rows| - 1;
      DropNaRows(rows[..n], width, k) + (if IsNa(rows[n][k]) then [] else [rows[n]])
  }

  /** `dropna` keeps every row whose cell k is present, and keeps only rows of the input. */
  lemma {:induction false} DropNaRowsKeepsPresentRows(rows: seq<seq<Cell>>, width: nat, k: nat)
    requires Rectangular(rows, width) && k < width
    ensures forall i :: 0 <= i < |rows| && !IsNa(rows[i][k]) ==> rows[i] in DropNaRows(rows, width, k)
    ensures forall i :: 0 <= i < |DropNaRows(rows, width, k)| ==> DropNaRows(rows, width, k)[i] in rows
    decreases |rows|
  {
    if rows != [] {
      var n := |rows| - 1;
      DropNaRowsKeepsPresentRows(rows[..n], width, k);
      var r, init := DropNaRows(rows, width, k), DropNaRows(rows[..n], width, k);
      assert r[..|init|] == init;
      forall i | 0 <= i < |rows| && !IsNa(rows[i][k])
        ensures rows[i] in r
      {
        if i < n {
          assert rows[i] == rows[..n][i];
          assert rows[i] in init;
        }
      }
      forall i | 0 <= i < |r|
        ensures r[i] in rows
      {
        if i < |init| {
          assert r[i] == init[i] && init[i] in rows[..n];
        }
      }
    }
  }

  /** Deciding one more row: it is kept exactly when its cell k is present. */
  lemma DropNaRowsStep(rows: seq<seq<Cell>>, width: nat, k: nat, i: nat)
    requires Rectangular(rows, width) && k < width && i < |rows|
    ensures DropNaRows(rows[..i + 1], width, k) ==
              DropNaRows(rows[..i], width, k) + (if IsNa(rows[i][k]) then [] else [rows[i]])
  {
    assert rows[..i + 1][..i] == rows[..i];
  }

  class Frame {
    var columns: seq<string>
    var rows: seq<seq<Cell>>

    ghost predicate Valid()
      reads this
    {
      Distinct(columns) && Rectangular(rows, |columns|)
    }

    /** `block.copy()` followed by `.columns = names`. */
    constructor Copy(names: seq<string>, block: Grid)
      requires block.Valid() && |names| == block.width && Distinct(names)
      ensures Valid()
      ensures columns == names && rows == block.rows
    {
      columns := names;
      rows := block.rows;
    }

    /** `self[target] = self[source].map(f)`, row by row in place. */
    method Assign(target: string, source: string, f: Cell -> Cell)
      requires Valid() && source in columns
      modifies this
      ensures Valid()
      ensures columns == WithColumn(old(columns), target)
      ensures rows == AssignColumn(old(rows), |old(columns)|, IndexOf(columns, target), IndexOf(old(columns), source), f)
    {
      var k := IndexOf(columns, source);
      var width := |columns|;
      columns := WithColumn(columns, target);
      var t := IndexOf(columns, target);
      ghost var original := rows;
      var i := 0;
      while i < |rows|
        invariant 0 <= i <= |rows| == |original|
        invariant columns == WithColumn(old(columns), target)
        invariant forall j :: 0 <= j < i ==> rows[j] == SetCell(original[j], t, f(original[j][k]))
        invariant forall j :: i <= j < |rows| ==> rows[j] == original[j]
      {
        rows := rows[i := SetCell(rows[i], t, f(rows[i][k]))];
        i := i + 1;
      }
      assert rows == AssignColumn(original, width, t, k, f);
    }

    /** `self.dropna(subset=[subset], inplace=True)`: kept rows are moved down over dropped ones. */
    method DropNa(subset: string)
      requires Valid() && subset in columns
      modifies this
      ensures Valid() && columns == old(columns)
      ensures rows == DropNaRows(old(rows), |columns|, IndexOf(columns, subset))
    {
      var k := IndexOf(columns, subset);
      ghost var original := rows;
      var kept, i := 0, 0;
      while i < |rows|
        invariant kept <= i <= |rows| == |original|
        invariant columns == old(columns) && Rectangular(original, |columns|)
        invariant rows[..kept] == DropNaRows(original[..i], |columns|, k)
        invariant forall j :: i <= j < |rows| ==> rows[j] == original[j]
      {
        DropNaRowsStep(original, |columns|, k, i);
        if !IsNa(rows[i][k]) {
          rows := rows[kept := rows[i]];
          kept := kept + 1;
        }
        i := i + 1;
      }
      assert original[..i] == original;
      rows := rows[..kept];
    }
  }
}
