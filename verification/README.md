# US population dashboard — a Dafny model of its data pipeline

The dashboard is a single Streamlit script, `app.py`. It reads a wide census
table with one row per state (`States`, `Id`, then one column per year,
2010–2019) and turns it into a long table with one row per (state, year). A
sidebar year selector picks one year. For that year the page shows:

- two "Gains / Losses" cards: the most and the least populous state, each
  with its change since the year before;
- a heatmap of every state and year;
- the ten most populous states;
- the year's rows as a table sorted by population.

This project models that pipeline once the table is in memory. Every step is
a pure function over sequences of records, and each step is proved against an
independent description of what it should produce.

| module | file | models |
|---|---|---|
| `Wrappers` | wrappers.dfy | `Option`, `Result`, `Min` |
| `Seqs` | seqs.dfy | order-preserving filtering (boolean masks, `str.replace` with `""`) |
| `Numbers` | numbers.dfy | `int(...)` on integer text, the population cell parse (`','` stripped, then parsed), thousands-grouped rendering |
| `Dataset` | dataset.dfy | the long record `PopRecord`, year slices, lookup by (state, year) |
| `Ranking` | ranking.dfy | `idxmax` / `idxmin` (first occurrence), `sort_values(ascending=False)`, `.head(n)` |
| `Loader` | loader.dfy | `load_data`: Id conversion, `melt`, Year conversion, population parse |
| `Metrics` | metrics.dfy | year selector, slice plus left join with the year before, KPI delta and its label, top ten, sorted table |
| `Heatmap` | heatmap.dfy | `pivot(index="Year", columns="States").fillna(0)` melted back into cells |
| `Dashboard` | dashboard.dfy | the page for one year, in the order the script computes it, with the first error that stops it |

Populations are integers. The script parses them as floats (app.py:33), but
the values are whole counts. A state's population in the year before is an
`Option<int>`: `None` plays the part of pandas' NaN in `Population_prev`, and
the KPI delta is `None` exactly when that value is. Errors the script would
raise are values:

- `LoadError` (`BadId`, `BadYear`, `BadPopulation`) for the `astype`
  conversions in `load_data`;
- `DashboardError` for the rest of the page:
  - `NoData`: `int(NaN)` on an empty table's minimum year;
  - `EmptySlice`: `idxmax` on an empty slice;
  - `DuplicateEntry`: `pivot` on a repeated (Year, States) pair.

## Model

| member | source | states |
|---|---|---|
| Numbers.ParseInt | app.py:24 | `int(...)` on integer text: a non-empty digit string gives its decimal value, and a `+` or `-` followed by digits gives that value with the sign; anything accepted is an optional sign followed by digits only |
| Numbers.ParseShowInt | app.py:24 | every integer's canonical decimal text parses back to that integer |
| Numbers.StripCommas | app.py:33 | `str.replace(",", "")` leaves no separator and returns separator-free text unchanged |
| Numbers.StripKeepsOtherCharacters | app.py:33 | stripping keeps every occurrence of every character other than ',' and drops every ',' |
| Numbers.StripAppend | app.py:33 | stripping a text is stripping its two halves and joining them, so the kept characters stay in their order |
| Numbers.ParsePopulation | app.py:33 | a cell without separators is parsed exactly as `int(...)` parses it |
| Numbers.ParsedCellHasDigit | app.py:33 | a cell that parses contains at least one digit |
| Numbers.ParseGroupedPopulation | app.py:33 | round trip: every natural number written with thousands separators ("1,234,567") parses back to itself |
| Numbers.ParseCommaPopulationExample | app.py:33 | "1,200" is read as 1200 |
| Numbers.ParseRejectsStrayCharacter | app.py:33 | a separated cell with a letter other than the exponent mark `e`/`E` after the separator ("1,2O0") is rejected even though stripping removed the separator, as `float()` rejects it |
| Numbers.ParseSeparatorsOnly | app.py:33 | every non-empty cell made only of separators (",,") is empty once stripped and is rejected, as `float("")` rejects it; an empty field never reaches this conversion, since the CSV reader turns it into NaN |
| Loader.FirstUnparsable | app.py:24 | a column converts exactly when none of its texts is rejected; otherwise the reported text is the first rejected one, every text before it being accepted |
| Loader.FirstBadCell | app.py:27-33 | no cell is reported exactly when every population cell parses; otherwise the reported cell is the first one that does not parse in melted order (year column by year column, row by row within a column), which is the cell `astype(float)` names |
| Loader.Load | app.py:20-34 | the load succeeds iff all Ids parse, all population cells parse, and (when there is a data row) all year headers parse; otherwise it fails with the first failing conversion in statement order (Id, then Year, then Population), naming the first text that conversion rejects (Ids in row order, headers in column order, population cells in melted order); on success it has one record per (year column, data row) |
| Loader.LoadNamesFirstBadCellInMeltOrder | app.py:27-33 | with headers 2010 and 2011, row A = ["1", "x1"] and row B = ["x2", "3"], the load fails on "x2", the first bad cell of the melted Population column, not on "x1", the first bad cell of the first row |
| Loader.Melt | app.py:27-31 | the melt from year column `j` on has one long record for each remaining (year column, data row) pair |
| Loader.MeltYearFromHeader | app.py:27-32 | every melted record's year is one of the parsed year headers |
| Loader.MeltAt | app.py:27-31 | `melt` is column-major: block `c` of the melt from column `j` holds year column `j + c`, one record per data row, in row order |
| Loader.LoadLayout | app.py:27-33 | year column `j` of data row `i` becomes record `j * |rows| + i`, with the row's state and id, the header as year and the cell as population |
| Loader.OffsetIsProduct | app.py:27-31 | the melted position of year column `c`, data row `i` (columns of `n` rows) is `c * n + i` |
| Loader.MeltUniqueKeys | app.py:27-31 | with distinct state names and distinct years, no two melted records share a (state, year) pair |
| Loader.LoadKeysUnique | app.py:20-34 | a loaded table with distinct states and distinct year headers has unique (state, year) pairs |
| Loader.LoadRoundTrip | app.py:27-33 | round trip: looking the loaded table up by a row's state and a column's year gives back that cell's parsed value |
| Dataset.Slice | app.py:55 | `df[df["Year"] == year]` keeps every record of that year exactly as often as the table holds it, and no other record |
| Dataset.SliceAppend | app.py:55 | the mask works piece by piece: slicing a table split in two is slicing each part, so the kept records stay in table order |
| Dataset.Lookup | app.py:58-62 | the first record of a state, if any: `None` exactly when the state is absent, otherwise the population of a record of that state |
| Dataset.PopulationAt | app.py:58-62 | the population of a (state, year) pair: `None` exactly when the table has no record for it |
| Dataset.PopulationAtUnique | app.py:58-62 | with unique (state, year) pairs, every record is what the lookup finds for its own pair |
| Dataset.UniqueSliceMatches | app.py:58-62 | with unique (state, year) pairs, a state has at most one record in any year slice |
| Metrics.Selector | app.py:44-51 | the options are every integer from the smallest to the largest year in the table, consecutively; both ends occur in the table; the default index selects the largest; an empty table fails with `NoData` |
| Metrics.LeftJoinPrev | app.py:58-62 | the left merge keeps every slice row and emits nothing else; each output row pairs a slice row with the population of one previous-year row of the same state, or with the absent marker exactly when there is none |
| Metrics.LeftJoinOrder | app.py:58-62 | read by their left columns, the merge's rows are the slice rows in table order, each repeated once per previous-year row of its state, or once when there is none |
| Metrics.LeftJoinKeepsPartners | app.py:58-62 | every pairing of a slice row with a previous-year row of the same state appears in the merge |
| Metrics.JoinOneToOne | app.py:62 | when no state has two previous-year rows, the merge keeps the slice row for row, each with that state's previous population |
| Metrics.View | app.py:55-62 | the frame `fdf` is empty exactly when the year has no records; it holds every record of the year and only those; `Population_prev` is absent exactly when the table has no record for the state in the year before, otherwise it is that record's population |
| Metrics.ViewIsSliceWithPrevious | app.py:55-62 | with unique (state, year) pairs the frame is the year slice, row for row, each row carrying the state's population in the year before |
| Metrics.ViewRowPrevious | app.py:58-62 | with unique (state, year) pairs, every frame row's `Population_prev` is that state's population in the year before |
| Metrics.ViewColumnsAreSlice | app.py:55-62 | with unique (state, year) pairs, the frame's own columns are exactly the year slice |
| Metrics.FirstYearHasNoPrevious | app.py:58-62 | in the first year of the table every `Population_prev` is absent |
| Metrics.Delta | app.py:81-82 | the delta is absent exactly when the previous population is; otherwise the previous population plus the delta is the current population |
| Metrics.FormatDelta | app.py:70-72 | an absent delta is shown as "—", and only an absent delta is; a present one is shown as that delta |
| Ranking.ArgMaxBy | app.py:78 | `idxmax`: a position holding the largest key, with every earlier key strictly smaller (the first occurrence) |
| Ranking.ArgMinBy | app.py:79 | `idxmin`: a position holding the smallest key, with every earlier key strictly larger (the first occurrence) |
| Metrics.GainsLosses | app.py:78-82 | for a non-empty frame, the top row is a frame row whose population is at least every other row's, the low row one whose population is at most every other row's, each the first such row, each with its delta; an empty frame fails with `EmptySlice` |
| Ranking.InsertDescSorted | app.py:137 | inserting into a population-descending sequence keeps it descending |
| Ranking.SortDesc | app.py:137 | `sort_values(ascending=False)` returns a permutation of its input with keys non-increasing |
| Ranking.TakeTop | app.py:137 | `.head(n)` of the sorted frame: `min(n, |s|)` elements of the input, keys non-increasing, none left out with a larger key than one kept |
| Metrics.TopStates | app.py:137 | the chart holds `min(10, |frame|)` rows, each taken from the frame no more often than it occurs there, largest population first, and no omitted row outranks a shown one |
| Metrics.Columns | app.py:159 | `fdf[["States", "Id", "Year", "Population"]]`: the frame's own columns, row for row, without `Population_prev` |
| Metrics.ExportTable | app.py:157-160 | the table shown under "Show Filtered Data" is a permutation of the frame's rows (without `Population_prev`), ordered by population descending |
| Heatmap.LexLessTotal | app.py:121 | Python's string order, by which `pivot` sorts its state columns, is total on distinct strings |
| Heatmap.LexLessTransitive | app.py:121 | that order is transitive |
| Heatmap.StateAxis | app.py:121 | the pivot's columns: each state of the table exactly once, in ascending string order |
| Heatmap.YearAxis | app.py:121 | the pivot's index: each year of the table exactly once, ascending |
| Heatmap.Fill | app.py:122 | `fillna(0)`: a pair with no record gets 0, a pair with a record gets that record's population |
| Heatmap.Grid | app.py:120-125 | the melted grid has `|states| * |years|` cells, and a cell is in it exactly when its state and year are on the axes and it holds the filled value |
| Heatmap.GridPairsDistinct | app.py:123-125 | on axes without repeats, no (year, state) pair has two cells |
| Heatmap.Pivot | app.py:120-125 | a table with a repeated (Year, States) pair fails with `DuplicateEntry`; otherwise one cell per (year, state) over all years and states of the table, holding the observed population or 0 |
| Heatmap.PivotCellsDistinct | app.py:120-125 | each (year, state) pair of the heatmap has exactly one cell |
| Heatmap.PivotKeepsObserved | app.py:120-122 | every record of the table appears as its own cell, with its population |
| Heatmap.PivotKeepsAllObserved | app.py:120-122 | no record of the table is missing from the heatmap |
| Heatmap.PivotFillsGapsWithZero | app.py:122 | a state and a year that occur in the table but never together get a cell holding 0 |
| Dashboard.Render | app.py:44-159 | the page renders iff the table is non-empty, has a record for the chosen year and has unique (Year, State) pairs; otherwise an empty table fails with `NoData`, a year without records with `EmptySlice`, and a repeated (Year, States) pair with `DuplicateEntry`, in that order |
| Dashboard.RenderedCards | app.py:78-79 | the cards name a record of the chosen year with the largest population and one with the smallest |
| Dashboard.RenderedDeltas | app.py:70-82 | each card's label is "—" exactly when the table has no record for that state in the year before, and otherwise shows current minus previous population |
| Dashboard.RenderedTables | app.py:137-160 | the chart holds ten records of the chosen year, or all when there are fewer; the sorted table holds exactly the year's records |
| Dashboard.RenderedHeatmap | app.py:120-125 | every record of the table is a cell of the page's heatmap |
| Dashboard.DefaultYearRenders | app.py:44-51 | with unique (Year, State) pairs, the year the selector opens on renders |
| Dashboard.LoadedTableRenders | app.py:20-51 | a wide table with at least one state and one year, distinct state names and distinct year headers, that loads, renders on the default year |

## Left out

- Streamlit page setup, sidebar widgets, `@st.cache_data`, the KPI `metric` calls and every Altair chart, including the donut rings with their fixed 27 % / 2 % values (app.py:11-14, 19, 75-76, 84-85, 92-152). These are presentation only. The colour-theme selector (app.py:52) only feeds the charts.
- File input and output: `pd.read_csv` on a fixed path, `to_csv` and the download button (app.py:21, 37-38, 162-166). The model starts from an in-memory `WideTable` of cell texts.
- The download file (app.py:164) is the unsorted frame including `Population_prev`. Only the displayed table (app.py:158-159) is sorted, and only that table is modelled.
- Header normalisation `str.strip().str.title()` (app.py:23) depends on Python's Unicode title-casing. The model takes the `States` and `Id` columns as already recognised, so a missing required column is not modelled.
- `fmt_millions` and the numeric branch of `fmt_delta_k` (app.py:67-68, 73) are float-to-text formatting. `FormatDelta` keeps the absent case and carries the delta itself as the shown value.
- Numbers.ParseInt: narrower than Python's `int()` and `float()`. It does not accept surrounding whitespace, `_` digit separators, decimal points, exponents, `nan`/`inf`, or non-ASCII decimal digits (which Python's `int` and `float` accept). A cell that only these would accept is rejected in the model.
- Loader.Load: Ids and years are unbounded integers, while `astype(int)` (app.py:24, 32) builds a fixed-width column, 64-bit, or 32-bit on Windows before NumPy 2. The width depends on the platform, so an Id or year text outside that range loads in the model, where the script raises `OverflowError`.
- Numbers.ParsePopulation: yields an integer where the script yields a float. Fractional populations and NaN cells (an empty CSV field) are not modelled. For the same reason, `fillna(0)` only ever fills pairs the table lacks.
- Ranking.SortDesc: a stable insertion sort stands for pandas' `sort_values`, which does not promise stability. Contracts therefore state only properties that hold for every tie order: keys non-increasing, a permutation of the input, and the top-n cut.
- Tie-breaking: the code takes the first occurrence for `idxmax`/`idxmin`, and its sort may order ties either way. An alphabetical tie-break by state name is not in the code and is not modelled.
- An out-of-range year raises no separate error in the code. Any year the selector does not offer simply has no records, and the model reports `EmptySlice` for it.
- `Population_prev` duplication: a previous-year slice with two rows for one state makes the merge repeat the current row. `LeftJoinPrev` models this, and `LeftJoinOrder` and `LeftJoinKeepsPartners` state it. The page-level lemmas assume unique (Year, State) pairs, because otherwise `pivot` fails later on the same page.
