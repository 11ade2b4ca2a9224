/**
 * The "BASES" section of the dashboard script: the column-count guard, the
 * fixed-position split of the sheet into the income (receitas) and expense
 * (despesas) blocks, and the cleaning loop over both blocks. `st.error` and
 * `st.stop` become a Stopped outcome that carries the reason.
 */
module App {
  import opened Wrappers
  import opened Sheets
  import opened Frames
  import opened Cleaning

  /** The sheet must have at least this many columns. */
  const MinColumns: nat := 10

  datatype Block = Receitas | Despesas

  datatype StopReason =
    | TooFewColumns(found: nat)                 // "A planilha retornou apenas N colunas"
    | BlockTooNarrow(block: Block, found: nat)  // "Erro nas RECEITAS/DESPESAS: esperado 4 colunas"

  /** The two blocks, cut to four columns each and not yet renamed. */
  datatype Blocks = Blocks(receitas: Grid, despesas: Grid)

  /**
   * The guard and the two slices, with the source's own checks on the width
   * of each slice. The contract shows those checks can never fail once the
   * guard has passed: the only failure is the guard's.
   */
  function Split(df: Grid): (r: Result<Blocks, StopReason>)
    requires df.Valid()
    ensures r.Failure? <==> df.width < MinColumns
    ensures r.Failure? ==> r.error == TooFewColumns(df.width)
    ensures r.Success? ==>
              r.value.receitas.Valid() && r.value.despesas.Valid() &&
              r.value.receitas.width == 4 && r.value.despesas.width == 4 &&
              |r.value.receitas.rows| == |r.value.despesas.rows| == (if |df.rows| == 0 then 0 else |df.rows| - 1)
    ensures r.Success? ==>
              forall i, j :: 0 <= i < |r.value.receitas.rows| && 0 <= j < 4 ==>
                r.value.receitas.rows[i][j] == df.rows[i + 1][j + 1]
    ensures r.Success? ==>
              forall i, j :: 0 <= i < |r.value.despesas.rows| && 0 <= j < 4 ==>
                r.value.despesas.rows[i][j] == df.rows[i + 1][j + 6]
  {
    if df.width < MinColumns then Failure(TooFewColumns(df.width))
    else
      var receitas := ILoc(df, 1, 1, 5);
      if receitas.width < 4 then Failure(BlockTooNarrow(Receitas, receitas.width))
      else
        var despesas := ILoc(df, 1, 6, 10);
        if despesas.width < 4 then Failure(BlockTooNarrow(Despesas, despesas.width))
        else Success(Blocks(ILoc(receitas, 0, 0, 4), ILoc(despesas, 0, 0, 4)))
  }

  /**
   * Why the guard matters: without it the income check would fail exactly on
   * sheets of fewer than 5 columns and the expense check on sheets of fewer
   * than 10, so the guard is what makes both unreachable.
   */
  lemma SliceWidthChecks(df: Grid)
    requires df.Valid()
    ensures ILoc(df, 1, 1, 5).width >= 4 <==> df.width >= 5
    ensures ILoc(df, 1, 6, 10).width >= 4 <==> df.width >= MinColumns
  {
  }

  /**
   * Only rows 1.. of columns 1-4 and 6-9 reach the blocks: two sheets that
   * agree on those cells split into the same blocks, whatever their header
   * row, first column, separator column 5 or columns past 9 hold.
   */
  lemma SplitReadsOnlyLedgerCells(df: Grid, other: Grid)
    requires df.Valid() && other.Valid()
    requires df.width >= MinColumns && other.width >= MinColumns && |df.rows| == |other.rows|
    requires forall i, j :: 1 <= i < |df.rows| && (1 <= j <= 4 || 6 <= j <= 9) ==> df.rows[i][j] == other.rows[i][j]
    ensures Split(df) == Split(other)
  {
    var a, b := Split(df).value, Split(other).value;
    assert a.receitas.rows == b.receitas.rows by {
      forall i | 0 <= i < |a.receitas.rows|
        ensures a.receitas.rows[i] == b.receitas.rows[i]
      {
        assert forall j :: 0 <= j < 4 ==> a.receitas.rows[i][j] == df.rows[i + 1][j + 1];
      }
    }
    assert a.despesas.rows == b.despesas.rows by {
      forall i | 0 <= i < |a.despesas.rows|
        ensures a.despesas.rows[i] == b.despesas.rows[i]
      {
        assert forall j :: 0 <= j < 4 ==> a.despesas.rows[i][j] == df.rows[i + 1][j + 6];
      }
    }
  }

  /** Neither cleaned ledger holds more rows than the sheet below its header row. */
  lemma LedgersNoLongerThanSheet(df: Grid, parseDate: Cell -> Option<Date>, limparValor: Cell -> Amount)
    requires df.Valid() && df.width >= MinColumns
    ensures Split(df).Success?
    ensures |CleanRows(Split(df).value.receitas.rows, parseDate, limparValor)| <= if |df.rows| == 0 then 0 else |df.rows| - 1
    ensures |CleanRows(Split(df).value.despesas.rows, parseDate, limparValor)| <= if |df.rows| == 0 then 0 else |df.rows| - 1
  {
  }

  /** A cleaned frame: the block's rows put through the cleaning pass, under the cleaned labels. */
  ghost predicate Cleaned(base: Frame, block: Grid, parseDate: Cell -> Option<Date>, limparValor: Cell -> Amount)
    reads base
  {
    base.Valid() && base.columns == CleanedColumns &&
    block.Valid() && block.width == 4 &&
    base.rows == CleanRows(block.rows, parseDate, limparValor)
  }

  datatype Outcome = Stopped(reason: StopReason) | Ledgers(receitas: Frame, despesas: Frame)

  /**
   * The whole section: stop on a narrow sheet, otherwise copy and rename both
   * blocks and clean each in turn. Each ledger is a fresh frame cleaned from
   * its own block only, so cleaning one never touches the other.
   */
  method Process(df: Grid, parseDate: Cell -> Option<Date>, limparValor: Cell -> Amount) returns (outcome: Outcome)
    requires df.Valid()
    ensures outcome.Stopped? <==> df.width < MinColumns
    ensures outcome.Stopped? ==> outcome.reason == TooFewColumns(df.width)
    ensures outcome.Ledgers? ==>
              Split(df).Success? &&
              fresh(outcome.receitas) && fresh(outcome.despesas) && outcome.receitas != outcome.despesas &&
              Cleaned(outcome.receitas, Split(df).value.receitas, parseDate, limparValor) &&
              Cleaned(outcome.despesas, Split(df).value.despesas, parseDate, limparValor)
  {
    var split := Split(df);
    if split.Failure? {
      return Stopped(split.error);
    }
    var blocks := split.value;
    var receitas := new Frame.Copy(LedgerColumns, blocks.receitas);
    var despesas := new Frame.Copy(LedgerColumns, blocks.despesas);
    var bases := [receitas, despesas];
    ghost var raw := [blocks.receitas, blocks.despesas];
    for i := 0 to |bases|
      invariant bases == [receitas, despesas] && raw == [blocks.receitas, blocks.despesas]
      invariant forall j :: 0 <= j < i ==> Cleaned(bases[j], raw[j], parseDate, limparValor)
      invariant forall j :: i <= j < |bases| ==>
                  bases[j].Valid() && bases[j].columns == LedgerColumns && bases[j].rows == raw[j].rows
    {
      CleanBase(bases[i], parseDate, limparValor);
    }
    assert Cleaned(bases[0], raw[0], parseDate, limparValor) && Cleaned(bases[1], raw[1], parseDate, limparValor);
    return Ledgers(receitas, despesas);
  }
}
