/** `load_data` (app.py:20-34): a wide census table, one row per state and
    one column per year, becomes the long table of (States, Id, Year,
    Population) rows. */
module Loader {
  import opened Wrappers
  import opened Numbers
  import opened Dataset

  /** One data row of the file as read: the States and Id cells, then one
      population cell per year column. */
  datatype WideRow = WideRow(state: string, id: string, cells: seq<string>)

  /** The file as read, with its column names already normalised: the
      headers of the year columns (every column except States and Id), and
      the data rows. */
  datatype WideTable = WideTable(yearHeaders: seq<string>, rows: seq<WideRow>)

  /** The conversion that raised, with the text it could not convert. */
  datatype LoadError = BadId(text: string) | BadYear(text: string) | BadPopulation(text: string)

  /** A data frame has one cell per row and column. */
  predicate Rectangular(t: WideTable)
  {
    forall i :: 0 <= i < |t.rows| ==> |t.rows[i].cells| == |t.yearHeaders|
  }

  predicate IdsParse(t: WideTable)
  {
    forall i :: 0 <= i < |t.rows| ==> ParseInt(t.rows[i].id).Some?
  }

  predicate YearsParse(t: WideTable)
  {
    forall j :: 0 <= j < |t.yearHeaders| ==> ParseInt(t.yearHeaders[j]).Some?
  }

  predicate RowParses(row: WideRow)
  {
    forall j :: 0 <= j < |row.cells| ==> ParsePopulation(row.cells[j]).Some?
  }

  predicate CellsParse(t: WideTable)
  {
    forall i :: 0 <= i < |t.rows| ==> RowParses(t.rows[i])
  }

  /** No state name repeats. */
  predicate DistinctStates(t: WideTable)
  {
    forall a, b :: 0 <= a < b < |t.rows| ==> t.rows[a].state != t.rows[b].state
  }

  /** No two year headers denote the same year. */
  predicate DistinctYears(t: WideTable)
  {
    forall a, b :: 0 <= a < b < |t.yearHeaders| ==>
      ParseInt(t.yearHeaders[a]) != ParseInt(t.yearHeaders[b])
  }

  /** `text` is the first of `texts` that `parse` rejects: it occurs at a
      position before which every text is accepted. */
  predicate FirstRejected(texts: seq<string>, parse: string -> Option<int>, text: string)
  {
    && parse(text).None?
    && exists k :: 0 <= k < |texts| && texts[k] == text &&
         forall k' :: 0 <= k' < k ==> parse(texts[k']).Some?
  }

  /** The first text that `parse` rejects, if any. */
  function FirstUnparsable(texts: seq<string>, parse: string -> Option<int>): (r: Option<string>)
    ensures r.None? <==> forall i :: 0 <= i < |texts| ==> parse(texts[i]).Some?
    ensures r.Some? ==> FirstRejected(texts, parse, r.value)
    decreases |texts|
  {
    if |texts| == 0 then None
    else if parse(texts[0]).None? then Some(texts[0])
    else
      var r := FirstUnparsable(texts[1..], parse);
      assert forall i :: 1 <= i < |texts| ==> texts[i] == texts[1..][i - 1];
      if r.Some? then
        var k :| 0 <= k < |texts[1..]| && texts[1..][k] == r.value &&
          forall k' :: 0 <= k' < k ==> parse(texts[1..][k']).Some?;
        assert texts[k + 1] == r.value;
        r
      else r
  }

  /** The population cells of year column `j`, in row order. */
  function YearColumn(t: WideTable, j: nat): (r: seq<string>)
    requires Rectangular(t) && j < |t.yearHeaders|
    ensures |r| == |t.rows| && forall i :: 0 <= i < |t.rows| ==> r[i] == t.rows[i].cells[j]
  {
    seq(|t.rows|, i requires 0 <= i < |t.rows| => t.rows[i].cells[j])
  }

  /** Cell (`j2`, `i2`) comes before cell (`j`, `i`) in the melted
      Population column: an earlier year column, or the same column and
      an earlier row. */
  predicate MeltedBefore(j2: nat, i2: nat, j: nat, i: nat)
  {
    j2 < j || (j2 == j && i2 < i)
  }

  /** `text` is the first population cell, from year column `j` on and in
      melted order, that does not parse. */
  predicate FirstBadInMeltOrder(t: WideTable, j: nat, text: string)
    requires Rectangular(t)
  {
    && ParsePopulation(text).None?
    && exists jj, i :: j <= jj < |t.yearHeaders| && 0 <= i < |t.rows| && t.rows[i].cells[jj] == text &&
         forall j2, i2 :: j <= j2 < |t.yearHeaders| && 0 <= i2 < |t.rows| && MeltedBefore(j2, i2, jj, i) ==>
           ParsePopulation(t.rows[i2].cells[j2]).Some?
  }

  /** The cell `astype(float)` names when it fails on the melted
      Population column: the first unparsable cell in melted order, year
      column by year column and, within a column, row by row. */
  function FirstBadCell(t: WideTable, j: nat): (r: Option<string>)
    requires Rectangular(t) && j <= |t.yearHeaders|
    ensures r.None? <==>
      forall jj, i :: j <= jj < |t.yearHeaders| && 0 <= i < |t.rows| ==> ParsePopulation(t.rows[i].cells[jj]).Some?
    ensures r.Some? ==> FirstBadInMeltOrder(t, j, r.value)
    decreases |t.yearHeaders| - j
  {
    if j == |t.yearHeaders| then None
    else
      var col := YearColumn(t, j);
      match FirstUnparsable(col, ParsePopulation)
      case Some(x) =>
        var k :| 0 <= k < |col| && col[k] == x &&
          forall k' :: 0 <= k' < k ==> ParsePopulation(col[k']).Some?;
        BadInColumn(t, j, k);
        Some(x)
      case None =>
        var r := FirstBadCell(t, j + 1);
        if r.Some? then
          BadInLaterColumn(t, j, r.value);
          r
        else r
  }

  /** A bad cell after only good cells of its own column is the first bad
      cell from that column on. */
  lemma BadInColumn(t: WideTable, j: nat, k: nat)
    requires Rectangular(t) && j < |t.yearHeaders| && k < |t.rows|
    requires ParsePopulation(t.rows[k].cells[j]).None?
    requires forall k' :: 0 <= k' < k ==> ParsePopulation(YearColumn(t, j)[k']).Some?
    ensures FirstBadInMeltOrder(t, j, t.rows[k].cells[j])
  {
    var col := YearColumn(t, j);
    forall j2, i2 | j <= j2 < |t.yearHeaders| && 0 <= i2 < |t.rows| && MeltedBefore(j2, i2, j, k)
      ensures ParsePopulation(t.rows[i2].cells[j2]).Some?
    {
      assert col[i2] == t.rows[i2].cells[j2];
    }
  }

  /** Past a column of good cells, the first bad cell from the next column
      on is the first bad cell from this one on. */
  lemma BadInLaterColumn(t: WideTable, j: nat, x: string)
    requires Rectangular(t) && j < |t.yearHeaders|
    requires forall i :: 0 <= i < |t.rows| ==> ParsePopulation(YearColumn(t, j)[i]).Some?
    requires FirstBadInMeltOrder(t, j + 1, x)
    ensures FirstBadInMeltOrder(t, j, x)
  {
    var col := YearColumn(t, j);
    var jj, i :| j + 1 <= jj < |t.yearHeaders| && 0 <= i < |t.rows| && t.rows[i].cells[jj] == x &&
      forall j2, i2 :: j + 1 <= j2 < |t.yearHeaders| && 0 <= i2 < |t.rows| && MeltedBefore(j2, i2, jj, i) ==>
        ParsePopulation(t.rows[i2].cells[j2]).Some?;
    forall j2, i2 | j <= j2 < |t.yearHeaders| && 0 <= i2 < |t.rows| && MeltedBefore(j2, i2, jj, i)
      ensures ParsePopulation(t.rows[i2].cells[j2]).Some?
    {
      if j2 == j {
        assert col[i2] == t.rows[i2].cells[j2];
      }
    }
  }

  /** Every cell parses exactly when every row's cells parse. */
  lemma CellsParseByColumn(t: WideTable)
    requires Rectangular(t)
    ensures CellsParse(t) <==>
      forall jj, i :: 0 <= jj < |t.yearHeaders| && 0 <= i < |t.rows| ==> ParsePopulation(t.rows[i].cells[jj]).Some?
  {
  }

  function IdTexts(rows: seq<WideRow>): (r: seq<string>)
    ensures |r| == |rows| && forall i :: 0 <= i < |rows| ==> r[i] == rows[i].id
  {
    seq(|rows|, i requires 0 <= i < |rows| => rows[i].id)
  }

  /** The long row for year column `j` of data row `i`. */
  function LongRecord(t: WideTable, j: nat, i: nat): (r: PopRecord)
    requires Rectangular(t) && IdsParse(t) && YearsParse(t) && CellsParse(t)
    requires j < |t.yearHeaders| && i < |t.rows|
  {
    PopRecord(t.rows[i].state, ParseInt(t.rows[i].id).value,
              ParseInt(t.yearHeaders[j]).value, ParsePopulation(t.rows[i].cells[j]).value)
  }

  /** Melt index arithmetic: one more year column of `n` rows shifts a
      position by `n`. */
  lemma MulSucc(a: nat, n: nat, i: nat)
    ensures (a + 1) * n + i == n + (a * n + i)
  {
  }

  /** The melted position of year column `c`, data row `i`, when every
      column has `n` rows: `c * n + i`, written without multiplication. */
  function Offset(c: nat, n: nat, i: nat): (r: nat)
  {
    if c == 0 then i else n + Offset(c - 1, n, i)
  }

  lemma {:induction false} OffsetIsProduct(c: nat, n: nat, i: nat)
    ensures Offset(c, n, i) == c * n + i
  {
    if c > 0 {
      OffsetIsProduct(c - 1, n, i);
      MulSucc(c - 1, n, i);
    }
  }


  /** `melt` from column `j` on: for each remaining year column in order,
      one long row per data row, in row order. */
  function Melt(t: WideTable, j: nat): (r: seq<PopRecord>)
    requires Rectangular(t) && IdsParse(t) && YearsParse(t) && CellsParse(t)
    requires j <= |t.yearHeaders|
    ensures |r| == Offset(|t.yearHeaders| - j, |t.rows|, 0)
    decreases |t.yearHeaders| - j
  {
    if j == |t.yearHeaders| then []
    else
      var n := |t.rows|;
      seq(n, i requires 0 <= i < n => LongRecord(t, j, i)) + Melt(t, j + 1)
  }

  /** Every row of the melt from column `j` on carries the year of one of
      those columns. */
  lemma {:induction false} MeltYearFromHeader(t: WideTable, j: nat, k: nat)
    requires Rectangular(t) && IdsParse(t) && YearsParse(t) && CellsParse(t)
    requires j <= |t.yearHeaders| && k < |Melt(t, j)|
    ensures exists jj :: j <= jj < |t.yearHeaders| && Melt(t, j)[k].year == ParseInt(t.yearHeaders[jj]).value
    decreases |t.yearHeaders| - j
  {
    var n := |t.rows|;
    if j == |t.yearHeaders| {
      assert false;
    } else if k < n {
      MeltHead(t, j, k);
      assert Melt(t, j)[k].year == ParseInt(t.yearHeaders[j]).value;
    } else {
      MeltShift(t, j, k - n);
      MeltYearFromHeader(t, j + 1, k - n);
    }
  }

  /** The long row at offset `i` of block `c` of the melt from column
      `j` comes from year column `jj = j + c` of data row `i`. */
  lemma {:induction false} MeltAt(t: WideTable, j: nat, jj: nat, c: nat, i: nat)
    requires Rectangular(t) && IdsParse(t) && YearsParse(t) && CellsParse(t)
    requires j + c == jj < |t.yearHeaders| && i < |t.rows|
    ensures Offset(c, |t.rows|, i) < |Melt(t, j)|
    ensures Melt(t, j)[Offset(c, |t.rows|, i)] == LongRecord(t, jj, i)
    decreases c
  {
    if c == 0 {
      MeltHead(t, j, i);
    } else {
      MeltAt(t, j + 1, jj, c - 1, i);
      MeltShift(t, j, Offset(c - 1, |t.rows|, i));
    }
  }

  lemma MeltHead(t: WideTable, j: nat, i: nat)
    requires Rectangular(t) && IdsParse(t) && YearsParse(t) && CellsParse(t)
    requires j < |t.yearHeaders| && i < |t.rows|
    ensures i < |Melt(t, j)| && Melt(t, j)[i] == LongRecord(t, j, i)
  {
  }

  lemma MeltShift(t: WideTable, j: nat, a: nat)
    requires Rectangular(t) && IdsParse(t) && YearsParse(t) && CellsParse(t)
    requires j < |t.yearHeaders| && a < |Melt(t, j + 1)|
    ensures |t.rows| + a < |Melt(t, j)| && Melt(t, j)[|t.rows| + a] == Melt(t, j + 1)[a]
  {
  }

  /** `load_data`: Id cells converted with `astype(int)`, the table melted
      into long form, then Year headers converted with `astype(int)` and
      population cells stripped of ',' and converted. The first conversion
      that fails aborts the whole load; with no data rows there is nothing
      to convert after the melt, so year headers are then never checked. */
  function Load(t: WideTable): (r: Result<seq<PopRecord>, LoadError>)
    requires Rectangular(t)
    ensures r.Success? <==> IdsParse(t) && (|t.rows| == 0 || YearsParse(t)) && CellsParse(t)
    ensures r.Failure? && r.error.BadId? ==> FirstRejected(IdTexts(t.rows), ParseInt, r.error.text)
    ensures r.Failure? && r.error.BadYear? ==>
      IdsParse(t) && |t.rows| > 0 && FirstRejected(t.yearHeaders, ParseInt, r.error.text)
    ensures r.Failure? && r.error.BadPopulation? ==>
      && IdsParse(t) && (|t.rows| == 0 || YearsParse(t))
      && FirstBadInMeltOrder(t, 0, r.error.text)
    ensures r.Success? ==> |r.value| == |t.yearHeaders| * |t.rows|
  {
    CellsParseByColumn(t);
    match FirstUnparsable(IdTexts(t.rows), ParseInt)
    case Some(x) => Failure(BadId(x))
    case None =>
      if |t.rows| > 0 && FirstUnparsable(t.yearHeaders, ParseInt).Some? then
        Failure(BadYear(FirstUnparsable(t.yearHeaders, ParseInt).value))
      else if FirstBadCell(t, 0).Some? then
        Failure(BadPopulation(FirstBadCell(t, 0).value))
      else if |t.rows| == 0 then
        Success([])
      else
        OffsetIsProduct(|t.yearHeaders|, |t.rows|, 0);
        Success(Melt(t, 0))
  }

  /** Two states and two years, with a bad population cell in each year
      column: in row A for 2011, in row B for 2010. */
  const TwoBadCells := WideTable(["2010", "2011"],
                                 [WideRow("A", "1", ["1", "x1"]), WideRow("B", "2", ["x2", "3"])])

  lemma TwoBadCellsHeadersParse()
    ensures Rectangular(TwoBadCells)
    ensures FirstUnparsable(IdTexts(TwoBadCells.rows), ParseInt) == None
    ensures FirstUnparsable(TwoBadCells.yearHeaders, ParseInt) == None
  {
    assert ParseInt("1") == Some(1) && ParseInt("2") == Some(2);
    assert IdTexts(TwoBadCells.rows) == ["1", "2"];
    assert ParseInt("2010").Some? && ParseInt("2011").Some?;
  }

  lemma TwoBadCellsFirstBadCell()
    ensures Rectangular(TwoBadCells) && FirstBadCell(TwoBadCells, 0) == Some("x2")
  {
    assert ParsePopulation("1").Some? && ParsePopulation("x2").None?;
    assert YearColumn(TwoBadCells, 0) == ["1", "x2"];
    assert FirstUnparsable(YearColumn(TwoBadCells, 0), ParsePopulation) == Some("x2");
  }

  /** With a bad cell in each year column, the load names the one of the
      first column even when a later column's bad cell sits in an earlier
      row. */
  lemma LoadNamesFirstBadCellInMeltOrder()
    ensures Rectangular(TwoBadCells) && Load(TwoBadCells) == Failure(BadPopulation("x2"))
  {
    TwoBadCellsHeadersParse();
    TwoBadCellsFirstBadCell();
  }

  /** The melted table has exactly one row per (year column, data row):
      year column `j` of data row `i` is row `Offset(j, |rows|, i)`, that
      is `j * |rows| + i` (`OffsetIsProduct`), carrying the row's state
      and id, the header as a year and the cell as a number. */
  lemma LoadLayout(t: WideTable, j: nat, i: nat)
    requires Rectangular(t) && Load(t).Success?
    requires j < |t.yearHeaders| && i < |t.rows|
    ensures Offset(j, |t.rows|, i) < |Load(t).value| && Load(t).value[Offset(j, |t.rows|, i)] ==
      PopRecord(t.rows[i].state, ParseInt(t.rows[i].id).value,
                ParseInt(t.yearHeaders[j]).value, ParsePopulation(t.rows[i].cells[j]).value)
  {
    LoadIsMelt(t);
    MeltFromFirst(t, j, i);
  }

  /** `MeltAt` for the whole melt. */
  lemma MeltFromFirst(t: WideTable, j: nat, i: nat)
    requires Rectangular(t) && IdsParse(t) && YearsParse(t) && CellsParse(t)
    requires j < |t.yearHeaders| && i < |t.rows|
    ensures Offset(j, |t.rows|, i) < |Melt(t, 0)| && Melt(t, 0)[Offset(j, |t.rows|, i)] == LongRecord(t, j, i)
  {
    MeltAt(t, 0, j, j, i);
  }

  /** A successful load of a table with data rows is its melt. */
  lemma LoadIsMelt(t: WideTable)
    requires Rectangular(t) && Load(t).Success? && |t.rows| > 0
    ensures IdsParse(t) && YearsParse(t) && CellsParse(t)
    ensures Load(t).value == Melt(t, 0)
  {
  }

  /** Two rows of the first melted column differ in state; a row of the
      first column and a row of a later column differ in year. */
  lemma MeltPairKeys(t: WideTable, j: nat, a: nat, b: nat)
    requires Rectangular(t) && IdsParse(t) && YearsParse(t) && CellsParse(t)
    requires DistinctStates(t) && DistinctYears(t)
    requires j < |t.yearHeaders| && a < |t.rows| && a < b < |Melt(t, j)|
    ensures Melt(t, j)[a].state != Melt(t, j)[b].state || Melt(t, j)[a].year != Melt(t, j)[b].year
  {
    var n := |t.rows|;
    MeltHead(t, j, a);
    if b < n {
      MeltHead(t, j, b);
    } else {
      var rest := Melt(t, j + 1);
      MeltShift(t, j, b - n);
      MeltYearFromHeader(t, j + 1, b - n);
      var jj :| j + 1 <= jj < |t.yearHeaders| && rest[b - n].year == ParseInt(t.yearHeaders[jj]).value;
      assert ParseInt(t.yearHeaders[j]) != ParseInt(t.yearHeaders[jj]);
    }
  }

  /** Rows after the first melted column inherit distinct keys from the
      rest of the melt. */
  lemma MeltTailKeys(t: WideTable, j: nat, a: nat, b: nat)
    requires Rectangular(t) && IdsParse(t) && YearsParse(t) && CellsParse(t)
    requires j < |t.yearHeaders| && UniqueKeys(Melt(t, j + 1))
    requires |t.rows| <= a < b < |Melt(t, j)|
    ensures Melt(t, j)[a].state != Melt(t, j)[b].state || Melt(t, j)[a].year != Melt(t, j)[b].year
  {
    var n := |t.rows|;
    var rest := Melt(t, j + 1);
    MeltShift(t, j, a - n);
    MeltShift(t, j, b - n);
    assert rest[a - n].state != rest[b - n].state || rest[a - n].year != rest[b - n].year;
  }

  lemma MeltKeysDiffer(t: WideTable, j: nat, a: nat, b: nat)
    requires Rectangular(t) && IdsParse(t) && YearsParse(t) && CellsParse(t)
    requires DistinctStates(t) && DistinctYears(t)
    requires j < |t.yearHeaders| && UniqueKeys(Melt(t, j + 1))
    requires a < b < |Melt(t, j)|
    ensures Melt(t, j)[a].state != Melt(t, j)[b].state || Melt(t, j)[a].year != Melt(t, j)[b].year
  {
    if a < |t.rows| {
      MeltPairKeys(t, j, a, b);
    } else {
      MeltTailKeys(t, j, a, b);
    }
  }

  /** With distinct state names and distinct years, every melted row has
      its own (state, year) pair. */
  lemma {:induction false} MeltUniqueKeys(t: WideTable, j: nat)
    requires Rectangular(t) && IdsParse(t) && YearsParse(t) && CellsParse(t)
    requires DistinctStates(t) && DistinctYears(t)
    requires j <= |t.yearHeaders|
    ensures UniqueKeys(Melt(t, j))
    decreases |t.yearHeaders| - j
  {
    if j < |t.yearHeaders| {
      MeltUniqueKeys(t, j + 1);
      var r := Melt(t, j);
      forall a, b | 0 <= a < b < |r| ensures r[a].state != r[b].state || r[a].year != r[b].year {
        MeltKeysDiffer(t, j, a, b);
      }
    }
  }

  /** A well-formed file (distinct states, distinct years) loads into a
      table with unique (state, year) keys. */
  lemma LoadKeysUnique(t: WideTable)
    requires Rectangular(t) && Load(t).Success?
    requires DistinctStates(t) && DistinctYears(t)
    ensures UniqueKeys(Load(t).value)
  {
    if |t.rows| > 0 {
      MeltUniqueKeys(t, 0);
    }
  }

  /** Round trip: pivoting the loaded table back by (state, year) gives,
      for every row and year column of the file, that cell's number. */
  lemma LoadRoundTrip(t: WideTable, i: nat, j: nat)
    requires Rectangular(t) && Load(t).Success?
    requires DistinctStates(t) && DistinctYears(t)
    requires i < |t.rows| && j < |t.yearHeaders|
    ensures PopulationAt(Load(t).value, t.rows[i].state, ParseInt(t.yearHeaders[j]).value)
            == ParsePopulation(t.rows[i].cells[j])
  {
    LoadKeysUnique(t);
    LoadLayout(t, j, i);
    PopulationAtUnique(Load(t).value, Offset(j, |t.rows|, i));
  }
}
