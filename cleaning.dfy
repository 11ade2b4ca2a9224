/**
 * The cleaning pass run over each ledger block (`for base in [receitas,
 * despesas]`): VALOR through `limpar_valor`, DATA through a coercing date
 * parse, rows without a date dropped, and ANO, MES_NUM and MES derived from
 * the date. The pass works column by column on a Frame; CleanRows states the
 * same result row by row, and the lemmas below say what it promises.
 */
module Cleaning {
  import opened Wrappers
  import opened Sheets
  import opened Frames

  /** The columns a block gets when it is renamed. */
  const LedgerColumns: seq<string> := ["DATA", "MES", "DESCRICAO", "VALOR"]

  /** The columns of a cleaned block: ANO and MES_NUM are appended, MES is overwritten. */
  const CleanedColumns: seq<string> := ["DATA", "MES", "DESCRICAO", "VALOR", "ANO", "MES_NUM"]

  /** Lower-case month abbreviations, as `strftime("%b").lower()` gives them in the C locale. */
  const MonthAbbreviations: seq<string> :=
    ["jan", "feb", "mar", "apr", "may", "jun", "jul", "aug", "sep", "oct", "nov", "dec"]

  /** The month's three-letter lower-case abbreviation. */
  function MonthLabel(m: MonthNumber): (abbrev: string)
    ensures |abbrev| == 3
    ensures forall i :: 0 <= i < 3 ==> 'a' <= abbrev[i] <= 'z'
  {
    MonthAbbreviations[m - 1]
  }

  /** Different months get different labels, so a label names its month. */
  lemma MonthLabelsDistinct(m: MonthNumber, other: MonthNumber)
    requires m != other
    ensures MonthLabel(m) != MonthLabel(other)
  {
    assert Distinct(MonthAbbreviations);
  }

  /** `pd.to_datetime(..., errors="coerce")` on one cell: a failed parse becomes NaT. */
  function ToDatetime(parseDate: Cell -> Option<Date>, c: Cell): (r: Cell)
    ensures r.Stamp? || r.NaT?
    ensures IsNa(r) <==> parseDate(c).None?
    ensures parseDate(c).Some? ==> r.date == parseDate(c).value
  {
    match parseDate(c)
    case Some(d) => Stamp(d)
    case None => NaT
  }

  /** `.dt.year` on one cell (NaT gives NaN). */
  function YearOf(c: Cell): (r: Cell)
    ensures IsNa(r) <==> !c.Stamp?
    ensures c.Stamp? ==> r == Int(c.date.year)
  {
    if c.Stamp? then Int(c.date.year) else Blank
  }

  /** `.dt.month` on one cell (NaT gives NaN). */
  function MonthOf(c: Cell): (r: Cell)
    ensures IsNa(r) <==> !c.Stamp?
    ensures c.Stamp? ==> r.Int? && 1 <= r.n <= 12 && r.n == c.date.month
  {
    if c.Stamp? then Int(c.date.month) else Blank
  }

  /** `.dt.strftime("%b").str.lower()` on one cell (NaT gives NaN). */
  function MonthLabelOf(c: Cell): (r: Cell)
    ensures IsNa(r) <==> !c.Stamp?
    ensures c.Stamp? ==> r.Text? && |r.text| == 3 && r.text == MonthLabel(c.date.month)
  {
    if c.Stamp? then Text(MonthLabel(c.date.month)) else Blank
  }

  /** A cleaned row holds a date, and its MES, ANO and MES_NUM are that date's month label, year and month. */
  predicate DateFieldsAgree(row: seq<Cell>) {
    |row| == 6 && row[0].Stamp? &&
    row[1] == Text(MonthLabel(row[0].date.month)) &&
    row[4] == Int(row[0].date.year) &&
    row[5] == Int(row[0].date.month)
  }

  /** The cleaned form of a block row [DATA, MES, DESCRICAO, VALOR] whose DATA parsed to d. */
  function CleanRow(row: seq<Cell>, d: Date, limparValor: Cell -> Amount): seq<Cell>
    requires |row| == 4
  {
    [Stamp(d), Text(MonthLabel(d.month)), row[2], Number(limparValor(row[3])), Int(d.year), Int(d.month)]
  }

  /** Reference definition of the pass, one row at a time: rows whose DATA fails to parse disappear. */
  function CleanRows(rows: seq<seq<Cell>>, parseDate: Cell -> Option<Date>, limparValor: Cell -> Amount): (cleaned: seq<seq<Cell>>)
    requires Rectangular(rows, 4)
    ensures Rectangular(cleaned, 6)
    ensures |cleaned| <= |rows|
    ensures forall k :: 0 <= k < |cleaned| ==> cleaned[k][0].Stamp?
    decreases |rows|
  {
    if rows == [] then []
    else
      var n := |rows| - 1;
      CleanRows(rows[..n], parseDate, limparValor) +
      match parseDate(rows[n][0])
      case Some(d) => [CleanRow(rows[n], d, limparValor)]
      case None => []
  }

  /** The positions, in ascending order, of the rows whose DATA parses: the rows that survive `dropna`. */
  function Parsed(rows: seq<seq<Cell>>, parseDate: Cell -> Option<Date>): (kept: seq<nat>)
    requires Rectangular(rows, 4)
    ensures |kept| <= |rows|
    ensures forall k :: 0 <= k < |kept| ==> kept[k] < |rows|
    ensures forall k, l :: 0 <= k < l < |kept| ==> kept[k] < kept[l]
    ensures forall i :: 0 <= i < |rows| ==> (i in kept <==> parseDate(rows[i][0]).Some?)
    decreases |rows|
  {
    if rows == [] then []
    else
      var n := |rows| - 1;
      Parsed(rows[..n], parseDate) + (if parseDate(rows[n][0]).Some? then [n] else [])
  }

  /**
   * The k-th cleaned row comes from the k-th row whose date parses, and is
   * that row with its date, month label, description, cleaned amount, year
   * and month number. Together with Parsed this says that cleaning keeps
   * exactly the rows with a date, in their order, and adds nothing.
   */
  lemma {:induction false} CleanRowsFollowParsed(rows: seq<seq<Cell>>, parseDate: Cell -> Option<Date>, limparValor: Cell -> Amount)
    requires Rectangular(rows, 4)
    ensures |CleanRows(rows, parseDate, limparValor)| == |Parsed(rows, parseDate)|
    ensures forall k :: 0 <= k < |Parsed(rows, parseDate)| ==>
              var i := Parsed(rows, parseDate)[k];
              parseDate(rows[i][0]).Some? &&
              CleanRows(rows, parseDate, limparValor)[k] == CleanRow(rows[i], parseDate(rows[i][0]).value, limparValor)
    decreases |rows|
  {
    if rows != [] {
      var n := |rows| - 1;
      var init := rows[..n];
      CleanRowsFollowParsed(init, parseDate, limparValor);
      var cleaned, kept := CleanRows(rows, parseDate, limparValor), Parsed(rows, parseDate);
      var cleanedInit, keptInit := CleanRows(init, parseDate, limparValor), Parsed(init, parseDate);
      match parseDate(rows[n][0])
      case None =>
        assert cleaned == cleanedInit && kept == keptInit;
        forall k | 0 <= k < |kept|
          ensures rows[kept[k]] == init[keptInit[k]]
        {
        }
      case Some(d) =>
        assert cleaned == cleanedInit + [CleanRow(rows[n], d, limparValor)];
        assert kept == keptInit + [n];
        forall k | 0 <= k < |kept|
          ensures parseDate(rows[kept[k]][0]).Some?
          ensures cleaned[k] == CleanRow(rows[kept[k]], parseDate(rows[kept[k]][0]).value, limparValor)
        {
          if k < |keptInit| {
            assert kept[k] == keptInit[k] && cleaned[k] == cleanedInit[k];
            assert rows[kept[k]] == init[keptInit[k]];
          }
        }
    }
  }

  /** Every cleaned row has a date, and its ANO, MES_NUM and MES are that date's year, month and month label. */
  lemma {:induction false} CleanedRowsAgreeWithTheirDate(rows: seq<seq<Cell>>, parseDate: Cell -> Option<Date>, limparValor: Cell -> Amount)
    requires Rectangular(rows, 4)
    ensures forall k :: 0 <= k < |CleanRows(rows, parseDate, limparValor)| ==>
              DateFieldsAgree(CleanRows(rows, parseDate, limparValor)[k])
  {
    var cleaned, kept := CleanRows(rows, parseDate, limparValor), Parsed(rows, parseDate);
    CleanRowsFollowParsed(rows, parseDate, limparValor);
    forall k | 0 <= k < |cleaned|
      ensures DateFieldsAgree(cleaned[k])
    {
      var i := kept[k];
      assert cleaned[k] == CleanRow(rows[i], parseDate(rows[i][0]).value, limparValor);
    }
  }

  /** The sheet's own MES column never influences the result: MES is rebuilt from the date. */
  lemma {:induction false} CleanRowsIgnoreSheetMonth(rows: seq<seq<Cell>>, other: seq<seq<Cell>>, parseDate: Cell -> Option<Date>, limparValor: Cell -> Amount)
    requires Rectangular(rows, 4) && Rectangular(other, 4) && |rows| == |other|
    requires forall i :: 0 <= i < |rows| ==> rows[i][0] == other[i][0] && rows[i][2] == other[i][2] && rows[i][3] == other[i][3]
    ensures CleanRows(rows, parseDate, limparValor) == CleanRows(other, parseDate, limparValor)
    decreases |rows|
  {
    if rows != [] {
      var n := |rows| - 1;
      CleanRowsIgnoreSheetMonth(rows[..n], other[..n], parseDate, limparValor);
    }
  }

  /**
   * The pass as pandas runs it, one whole column at a time: VALOR, then DATA,
   * then dropna on DATA, then ANO, MES_NUM and MES. valor and toDatetime are
   * the per-cell functions handed to the frame.
   */
  function ColumnPasses(rows: seq<seq<Cell>>, valor: Cell -> Cell, toDatetime: Cell -> Cell): (r: seq<seq<Cell>>)
    requires Rectangular(rows, 4)
    ensures Rectangular(r, 6)
    ensures |r| <= |rows|
    ensures forall k :: 0 <= k < |r| ==> !IsNa(r[k][0])
  {
    var withValor := AssignColumn(rows, 4, 3, 3, valor);
    var withDates := AssignColumn(withValor, 4, 0, 0, toDatetime);
    var dated := DropNaRows(withDates, 4, 0);
    var withYear := AssignColumn(dated, 4, 4, 0, YearOf);
    var withMonth := AssignColumn(withYear, 5, 5, 0, MonthOf);
    AssignColumn(withMonth, 6, 1, 0, MonthLabelOf)
  }

  lemma AssignColumnSplit(a: seq<seq<Cell>>, b: seq<seq<Cell>>, width: nat, t: nat, k: nat, f: Cell -> Cell)
    requires Rectangular(a, width) && Rectangular(b, width) && t <= width && k < width
    ensures AssignColumn(a + b, width, t, k, f) == AssignColumn(a, width, t, k, f) + AssignColumn(b, width, t, k, f)
  {
    var whole, left, right := AssignColumn(a + b, width, t, k, f), AssignColumn(a, width, t, k, f), AssignColumn(b, width, t, k, f);
    forall i | 0 <= i < |whole|
      ensures whole[i] == (left + right)[i]
    {
      if i < |a| {
        assert (a + b)[i] == a[i];
      } else {
        assert (a + b)[i] == b[i - |a|];
      }
    }
  }

  lemma {:induction false} DropNaRowsSplit(a: seq<seq<Cell>>, b: seq<seq<Cell>>, width: nat, k: nat)
    requires Rectangular(a, width) && Rectangular(b, width) && k < width
    ensures DropNaRows(a + b, width, k) == DropNaRows(a, width, k) + DropNaRows(b, width, k)
    decreases |b|
  {
    if b == [] {
      assert a + b == a;
    } else {
      var n, ab := |b| - 1, a + b;
      var last := if IsNa(b[n][k]) then [] else [b[n]];
      assert ab[..|ab| - 1] == a + b[..n] && ab[|ab| - 1] == b[n];
      assert DropNaRows(ab, width, k) == DropNaRows(a + b[..n], width, k) + last;
      assert DropNaRows(b, width, k) == DropNaRows(b[..n], width, k) + last;
      DropNaRowsSplit(a, b[..n], width, k);
    }
  }

  /** Running the column passes over two stretches of rows is running them over each stretch. */
  lemma ColumnPassesSplit(a: seq<seq<Cell>>, b: seq<seq<Cell>>, valor: Cell -> Cell, toDatetime: Cell -> Cell)
    requires Rectangular(a, 4) && Rectangular(b, 4)
    ensures ColumnPasses(a + b, valor, toDatetime) == ColumnPasses(a, valor, toDatetime) + ColumnPasses(b, valor, toDatetime)
  {
    AssignColumnSplit(a, b, 4, 3, 3, valor);
    var a1, b1 := AssignColumn(a, 4, 3, 3, valor), AssignColumn(b, 4, 3, 3, valor);
    AssignColumnSplit(a1, b1, 4, 0, 0, toDatetime);
    var a2, b2 := AssignColumn(a1, 4, 0, 0, toDatetime), AssignColumn(b1, 4, 0, 0, toDatetime);
    DropNaRowsSplit(a2, b2, 4, 0);
    var a3, b3 := DropNaRows(a2, 4, 0), DropNaRows(b2, 4, 0);
    AssignColumnSplit(a3, b3, 4, 4, 0, YearOf);
    var a4, b4 := AssignColumn(a3, 4, 4, 0, YearOf), AssignColumn(b3, 4, 4, 0, YearOf);
    AssignColumnSplit(a4, b4, 5, 5, 0, MonthOf);
    var a5, b5 := AssignColumn(a4, 5, 5, 0, MonthOf), AssignColumn(b4, 5, 5, 0, MonthOf);
    AssignColumnSplit(a5, b5, 6, 1, 0, MonthLabelOf);
  }

  /** On a single row the column passes give that row's cleaned form, or nothing when its date fails to parse. */
  lemma ColumnPassesOnOneRow(row: seq<Cell>, parseDate: Cell -> Option<Date>, limparValor: Cell -> Amount, valor: Cell -> Cell, toDatetime: Cell -> Cell)
    requires |row| == 4
    requires forall c :: valor(c) == Number(limparValor(c))
    requires forall c :: toDatetime(c) == ToDatetime(parseDate, c)
    ensures ColumnPasses([row], valor, toDatetime) ==
              match parseDate(row[0])
              case Some(d) => [CleanRow(row, d, limparValor)]
              case None => []
  {
    var r1 := SetCell(row, 3, valor(row[3]));
    AssignColumnOfOne(row, 4, 3, 3, valor);
    var r2 := SetCell(r1, 0, toDatetime(r1[0]));
    AssignColumnOfOne(r1, 4, 0, 0, toDatetime);
    var none: seq<seq<Cell>> := [];
    assert [r2][..0] == none;
    match parseDate(row[0])
    case None =>
      assert DropNaRows([r2], 4, 0) == [];
    case Some(d) =>
      assert DropNaRows([r2], 4, 0) == [r2];
      var r3 := SetCell(r2, 4, YearOf(r2[0]));
      AssignColumnOfOne(r2, 4, 4, 0, YearOf);
      var r4 := SetCell(r3, 5, MonthOf(r3[0]));
      AssignColumnOfOne(r3, 5, 5, 0, MonthOf);
      var r5 := SetCell(r4, 1, MonthLabelOf(r4[0]));
      AssignColumnOfOne(r4, 6, 1, 0, MonthLabelOf);
      assert r5 == CleanRow(row, d, limparValor);
  }

  lemma AssignColumnOfOne(row: seq<Cell>, width: nat, t: nat, k: nat, f: Cell -> Cell)
    requires |row| == width && t <= width && k < width
    ensures AssignColumn([row], width, t, k, f) == [SetCell(row, t, f(row[k]))]
    ensures AssignColumn([], width, t, k, f) == []
  {
  }

  /** The column-at-a-time pass and the row-at-a-time reference agree on every block. */
  lemma {:induction false} ColumnPassesMatchCleanRows(rows: seq<seq<Cell>>, parseDate: Cell -> Option<Date>, limparValor: Cell -> Amount, valor: Cell -> Cell, toDatetime: Cell -> Cell)
    requires Rectangular(rows, 4)
    requires forall c :: valor(c) == Number(limparValor(c))
    requires forall c :: toDatetime(c) == ToDatetime(parseDate, c)
    ensures ColumnPasses(rows, valor, toDatetime) == CleanRows(rows, parseDate, limparValor)
    decreases |rows|
  {
    if rows == [] {
      assert ColumnPasses(rows, valor, toDatetime) == [];
    } else {
      var n := |rows| - 1;
      assert rows == rows[..n] + [rows[n]];
      ColumnPassesSplit(rows[..n], [rows[n]], valor, toDatetime);
      ColumnPassesMatchCleanRows(rows[..n], parseDate, limparValor, valor, toDatetime);
      ColumnPassesOnOneRow(rows[n], parseDate, limparValor, valor, toDatetime);
    }
  }

  /** The labels as the pass adds and overwrites columns. */
  lemma LabelsAfterAssign()
    ensures WithColumn(LedgerColumns, "VALOR") == LedgerColumns
    ensures WithColumn(LedgerColumns, "DATA") == LedgerColumns
    ensures WithColumn(LedgerColumns, "ANO") == LedgerColumns + ["ANO"]
    ensures WithColumn(LedgerColumns + ["ANO"], "MES_NUM") == CleanedColumns
    ensures WithColumn(CleanedColumns, "MES") == CleanedColumns
  {
    assert LedgerColumns[3] == "VALOR" && LedgerColumns[0] == "DATA" && CleanedColumns[1] == "MES";
    assert "ANO" !in LedgerColumns && "MES_NUM" !in LedgerColumns + ["ANO"];
    assert LedgerColumns + ["ANO"] + ["MES_NUM"] == CleanedColumns;
  }

  /** Where each label the pass reads or writes sits. */
  lemma LabelPositions()
    ensures IndexOf(LedgerColumns, "VALOR") == 3 && IndexOf(LedgerColumns, "DATA") == 0
    ensures IndexOf(LedgerColumns + ["ANO"], "ANO") == 4 && IndexOf(LedgerColumns + ["ANO"], "DATA") == 0
    ensures IndexOf(CleanedColumns, "MES_NUM") == 5 && IndexOf(CleanedColumns, "MES") == 1 && IndexOf(CleanedColumns, "DATA") == 0
  {
  }

  /**
   * The body of `for base in [receitas, despesas]`: the five column
   * assignments and the dropna, applied in place to one renamed block.
   */
  method CleanBase(base: Frame, parseDate: Cell -> Option<Date>, limparValor: Cell -> Amount)
    requires base.Valid() && base.columns == LedgerColumns
    modifies base
    ensures base.Valid() && base.columns == CleanedColumns
    ensures base.rows == CleanRows(old(base.rows), parseDate, limparValor)
  {
    ghost var block := base.rows;
    var valor := c => Number(limparValor(c));
    var toDatetime := c => ToDatetime(parseDate, c);
    LabelsAfterAssign();
    LabelPositions();
    base.Assign("VALOR", "VALOR", valor);
    ghost var withValor := base.rows;
    assert withValor == AssignColumn(block, 4, 3, 3, valor);
    base.Assign("DATA", "DATA", toDatetime);
    ghost var withDates := base.rows;
    assert withDates == AssignColumn(withValor, 4, 0, 0, toDatetime);
    base.DropNa("DATA");
    ghost var dated := base.rows;
    assert dated == DropNaRows(withDates, 4, 0);
    base.Assign("ANO", "DATA", YearOf);
    ghost var withYear := base.rows;
    assert withYear == AssignColumn(dated, 4, 4, 0, YearOf);
    base.Assign("MES_NUM", "DATA", MonthOf);
    ghost var withMonth := base.rows;
    assert withMonth == AssignColumn(withYear, 5, 5, 0, MonthOf);
    base.Assign("MES", "DATA", MonthLabelOf);
    assert base.rows == AssignColumn(withMonth, 6, 1, 0, MonthLabelOf);
    assert base.rows == ColumnPasses(block, valor, toDatetime);
    ColumnPassesMatchCleanRows(block, parseDate, limparValor, valor, toDatetime);
  }
}
