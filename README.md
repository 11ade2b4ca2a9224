# Ledger split and cleaning of the personal-finance dashboard

The dashboard script reads a personal-finance spreadsheet into a grid of
cells and, in its "BASES" section, turns it into two ledgers:

- it stops with an error unless the sheet has at least 10 columns;
- it cuts the income block (receitas: rows 1.., columns 1-4) and the expense
  block (despesas: rows 1.., columns 6-9) out of the sheet, copies them and
  names their columns DATA, MES, DESCRICAO, VALOR;
- for each block in turn it runs VALOR through `limpar_valor`, parses DATA
  (a failed parse becomes the missing date NaT), drops the rows without a
  date, and adds ANO and MES_NUM and overwrites MES from the date.

This project models that section in Dafny and proves what it promises.

- `Sheets` holds the cells, the dates and the grid. It also holds pandas'
  positional slice `iloc`, which clips bounds past the end of the grid.
- `Frames` holds a `Frame` class for a data frame: named columns over rows,
  changed in place. `Assign` is `df[target] = df[source].map(f)`, which
  overwrites an existing column or appends a new one, row by row. `DropNa`
  is `dropna(subset=..., inplace=True)`, which moves the kept rows down over
  the dropped ones.
- `Cleaning` holds the pass over one block. `CleanBase` is the loop body
  run on a `Frame`. `CleanRows` is an independent row-by-row definition of
  the same result, and `ColumnPassesMatchCleanRows` proves that pandas'
  column-at-a-time order gives exactly that result. `Parsed` lists the
  surviving rows, and the lemmas say what survives and what each surviving
  row holds.
- `App` holds the guard and the two slices as the function `Split`, with
  the script's own width checks on each slice. `Process` is the whole
  section, including the `for base in [receitas, despesas]` loop.

The two foreign calls are parameters. The date parser is
`parseDate: Cell -> Option<Date>`, with a month always in 1..12.
`limpar_valor` is `limparValor: Cell -> Amount`. Nothing is assumed about
either beyond their being total functions.

This script finds the two blocks at fixed column positions. It does not
sniff the data for date or amount columns, and it has no separate
"malformed ledger" error: it only stops when the sheet is too narrow.

## Model

| member | source | states |
|---|---|---|
| `Sheets.ILoc` | app.py:12 | `g.iloc[r0:, c0:c1]` has the rows from r0 on and the columns c0..c1-1, each clipped to the grid. Cell (i, j) of the slice is cell (r0+i, c0+j) of the grid. |
| `App.Split` | app.py:6-29 | The split fails exactly when the sheet has fewer than 10 columns, and then only with `TooFewColumns(width)`. So the "esperado 4 colunas" branches (lines 17-19 and 27-29) never fire. On success both blocks are 4 columns wide with one row per sheet row after the first. Income cell (i, j) is sheet cell (i+1, j+1) and expense cell (i, j) is sheet cell (i+1, j+6). |
| `App.SliceWidthChecks` | app.py:14-29 | Without the guard, the income slice would be at least 4 wide iff the sheet has at least 5 columns. The expense slice would be at least 4 wide iff the sheet has at least 10 columns. |
| `App.SplitReadsOnlyLedgerCells` | app.py:12-26 | Two sheets of at least 10 columns with the same number of rows split into identical blocks when they agree on rows 1.. of columns 1-4 and 6-9. The header row, column 0, column 5 and columns past 9 never reach a block. |
| `App.LedgersNoLongerThanSheet` | app.py:12-35 | For any sheet that passes the guard, neither cleaned ledger has more rows than the sheet minus its header row, and both are empty when the sheet has no rows at all. |
| `App.Process` | app.py:6-38 | The section stops iff the sheet has fewer than 10 columns, with that reason. Otherwise it returns two distinct, freshly made frames. Each has columns DATA, MES, DESCRICAO, VALOR, ANO, MES_NUM and rows equal to `CleanRows` of its own block. Cleaning one therefore leaves the other, and the sheet, untouched. |
| `Frames.Frame.Copy` | app.py:12-16 | A copied block renamed with the given labels holds exactly the block's rows. |
| `Frames.IndexOf` | app.py:33-38 | `df[name]` finds the first column labelled name: the position is in range, holds that label, and no earlier column has it. |
| `Frames.WithColumn` | app.py:33-38 | After `df[target] = ...` the labels are the old labels, extended by target only when it was absent. They stay distinct when they were. The target sits at its old position, or at the end when it is new. |
| `Frames.AssignColumn` | app.py:33-38 | Assigning a column keeps the row count. Each row's target cell becomes f of that row's own source cell. Every other cell is unchanged. The width grows by one only when the target is new. |
| `Frames.Frame.Assign` | app.py:33-38 | In place: the labels gain the target only if it was absent, and the rows become `AssignColumn` of the old rows. |
| `Frames.DropNaRows` | app.py:35 | `dropna` keeps no row whose cell is NaN or NaT, never adds a row, and keeps the width. |
| `Frames.DropNaRowsKeepsPresentRows` | app.py:35 | `dropna` keeps every row whose cell is present, and every row it returns is a row of the input. |
| `Frames.Frame.DropNa` | app.py:35 | In place: the labels are unchanged, and the rows become `DropNaRows` of the old rows. |
| `Cleaning.ToDatetime` | app.py:34 | `to_datetime(errors="coerce")` gives a date or NaT. The result is missing iff the parse fails, and otherwise it is the parsed date. |
| `Cleaning.YearOf` | app.py:36 | `.dt.year` is missing iff the cell is not a date, and otherwise it is the date's year. |
| `Cleaning.MonthOf` | app.py:37 | `.dt.month` is missing iff the cell is not a date, and otherwise it is the date's month, a number in 1..12. |
| `Cleaning.MonthLabelOf` | app.py:38 | `.dt.strftime("%b").str.lower()` is missing iff the cell is not a date, and otherwise it is the three-letter label of the date's month. |
| `Cleaning.MonthLabel` | app.py:38 | A month label is three lower-case letters. |
| `Cleaning.MonthLabelsDistinct` | app.py:38 | Different months get different labels, so MES determines the month. |
| `Cleaning.CleanRows` | app.py:33-38 | The row-by-row reference for one pass: every cleaned row is 6 cells wide and holds a date in DATA, and there are no more rows than in the block. |
| `Cleaning.Parsed` | app.py:34-35 | The surviving rows are strictly ascending positions of the block, and position i is among them iff row i's DATA parses. Survivors keep their order, no row repeats, and exactly the rows with an unparseable date are dropped. |
| `Cleaning.CleanRowsFollowParsed` | app.py:33-38 | The k-th cleaned row comes from the k-th surviving source row. It is [parsed date, label of its month, the original DESCRICAO, `limpar_valor` of the original VALOR, the date's year, the date's month]. |
| `Cleaning.CleanedRowsAgreeWithTheirDate` | app.py:34-38 | Every cleaned row has a real date in DATA. Its ANO, MES_NUM and MES are that date's year, month number and month label. |
| `Cleaning.CleanRowsIgnoreSheetMonth` | app.py:38 | Two blocks that differ only in the sheet's own MES column clean to the same ledger. |
| `Cleaning.ColumnPasses` | app.py:33-38 | The column-at-a-time pass yields rows 6 cells wide, none longer than the block, with no missing DATA. |
| `Cleaning.ColumnPassesMatchCleanRows` | app.py:33-38 | Running the steps column by column gives exactly the row-by-row reference `CleanRows` for every block. The steps are VALOR, DATA, dropna on DATA, ANO, MES_NUM, MES. |
| `Cleaning.CleanBase` | app.py:32-38 | One pass of the loop over a renamed block leaves it with columns DATA, MES, DESCRICAO, VALOR, ANO, MES_NUM and rows `CleanRows` of its old rows. |

## Left out

- Streamlit (`st.error`, `st.write`, `st.stop`) is user interface. An error
  and stop becomes the `Stopped` outcome carrying the reason. The message
  text and the printed column list are not modelled.
- The body of `limpar_valor` is not part of this model. It is the parameter
  `limparValor`, and nothing is claimed about its currency rules.
- `pd.to_datetime` is the parameter `parseDate`, applied to each cell on its
  own. pandas infers one date format from the first non-missing value of a column and
  applies it to the rest, so one cell's parse can depend on another's. That
  dependence is not captured.
- The month label of `strftime("%b")` depends on the host locale. The model
  uses the fixed lower-case C-locale table ("jan" .. "dec").
- Amounts are `real` values with no arithmetic. The floating-point
  behaviour of `limpar_valor`'s result is not modelled.
- pandas' row index labels, which keep the sheet's numbering and have gaps
  after `dropna`, are not modelled. Column dtypes are not modelled either:
  ANO and MES_NUM are `Int` cells.
- A frame's column labels are assumed distinct (`Frame.Valid`). pandas
  allows duplicates, but this script never creates them.
- Frames.DropNaRows: its own contract and `Frames.DropNaRowsKeepsPresentRows`
  state which rows are kept, but not that they keep their original order,
  nor that each is kept once. Both are proved for the cleaning pass instead, by `Cleaning.Parsed` and
  `Cleaning.CleanRowsFollowParsed`.
- An exception raised by `limpar_valor` is not modelled. Line 33 runs it on
  every row, including rows that `dropna` later removes, so such an
  exception would stop the script before any row is dropped. `limparValor`
  is total.
- Loading the workbook that yields `df`, the monthly aggregation, the
  balance table, the "remaining months" window and the charts are not part
  of this model. None of them appear in app.py.
