/** The per-year computations of the dashboard (app.py:44-82, 137, 159):
    the year selector, the year slice joined with the previous year, the
    KPI deltas and their absent marker, the highest and lowest state, the
    top-ten list and the population-descending table. */
module Metrics {
  import opened Wrappers
  import opened Dataset
  import opened Ranking

  /** The year selectbox: its options and the index selected by default. */
  datatype YearSelector = YearSelector(options: seq<int>, defaultIndex: nat)

  /** A row of the joined frame: the year's row plus `Population_prev`,
      absent when the merge found no previous-year row for the state. */
  datatype JoinedRow = JoinedRow(rec: PopRecord, prev: Option<int>)

  /** How `fmt_delta_k` shows a delta: the absent marker, or a number of
      thousands whose float formatting is not modelled. */
  datatype DeltaLabel = Marker(text: string) | Thousands(delta: int)

  /** The two KPI cards: the highest and lowest state and their deltas. */
  datatype Kpis = Kpis(top: JoinedRow, low: JoinedRow, topDelta: Option<int>, lowDelta: Option<int>)

  /** The text shown for a delta that does not exist. */
  const AbsentMark: string := "—"

  /** How many states the bar chart shows. */
  const TopCount: nat := 10

  function YearOf(x: PopRecord): int { x.year }

  function PopulationOf(x: PopRecord): int { x.population }

  function RowPopulation(row: JoinedRow): int { row.rec.population }

  /** `min_year`, `max_year` and the selectbox over
      `range(min_year, max_year + 1)` with `index=max_year - min_year`:
      every year from the smallest to the largest in the table, in order,
      with the largest selected. An empty table has no minimum, and the
      script stops there. */
  function Selector(recs: seq<PopRecord>): (r: Result<YearSelector, DashboardError>)
    ensures r.Failure? <==> |recs| == 0
    ensures r.Failure? ==> r.error == NoData
    ensures r.Success? ==>
      var o := r.value.options;
      && |o| > 0
      && (forall i :: 0 <= i < |o| ==> o[i] == o[0] + i)
      && r.value.defaultIndex == |o| - 1
      && (forall x :: x in recs ==> o[0] <= x.year <= o[|o| - 1])
      && (exists x :: x in recs && x.year == o[0])
      && (exists x :: x in recs && x.year == o[|o| - 1])
  {
    if |recs| == 0 then Failure(NoData)
    else
      var lo := recs[ArgMinBy(recs, YearOf)].year;
      var hi := recs[ArgMaxBy(recs, YearOf)].year;
      assert recs[ArgMinBy(recs, YearOf)] in recs && recs[ArgMaxBy(recs, YearOf)] in recs;
      Success(YearSelector(seq(hi - lo + 1, i => lo + i), hi - lo))
  }

  /** The joined rows for one left row `x` given its partners `ms`: one row
      per partner, or a single row with the absent marker. */
  function JoinOne(x: PopRecord, ms: seq<PopRecord>): (r: seq<JoinedRow>)
    ensures |r| == if |ms| == 0 then 1 else |ms|
    ensures forall row :: row in r ==> row.rec == x
    ensures forall row :: row in r ==> (row.prev.None? <==> |ms| == 0)
    ensures forall row :: row in r && row.prev.Some? ==>
      exists m :: m in ms && m.population == row.prev.value
  {
    if |ms| == 0 then [JoinedRow(x, None)]
    else
      var r := seq(|ms|, k requires 0 <= k < |ms| => JoinedRow(x, Some(ms[k].population)));
      assert forall k :: 0 <= k < |ms| ==> ms[k] in ms;
      r
  }

  /** A joined row that pairs a row of `slice` with the population of one
      of its partners in `prev`, or with the absent marker when it has none. */
  predicate JoinedFrom(row: JoinedRow, slice: seq<PopRecord>, prev: seq<PopRecord>)
  {
    && row.rec in slice
    && (row.prev.None? <==> |Matches(prev, row.rec.state)| == 0)
    && (row.prev.Some? ==>
          exists m :: m in Matches(prev, row.rec.state) && m.population == row.prev.value)
  }

  /** `slice.merge(prev, on="States", how="left")`: every row of `slice`,
      in order, paired with the population of each row of `prev` for the
      same state, or with the absent marker when `prev` has none. */
  function LeftJoinPrev(slice: seq<PopRecord>, prev: seq<PopRecord>): (r: seq<JoinedRow>)
    ensures |r| >= |slice| && (|r| == 0 <==> |slice| == 0)
    ensures forall row :: row in r ==> JoinedFrom(row, slice, prev)
    ensures forall x :: x in slice ==> exists row :: row in r && row.rec == x
    decreases |slice|
  {
    if |slice| == 0 then []
    else
      var ms := Matches(prev, slice[0].state);
      var head := JoinOne(slice[0], ms);
      var tail := LeftJoinPrev(slice[1..], prev);
      var r := head + tail;
      assert slice[0] in slice;
      forall row | row in r ensures JoinedFrom(row, slice, prev) {
        if row in head {
          assert row.rec == slice[0];
        } else {
          assert row in tail;
          assert JoinedFrom(row, slice[1..], prev);
          assert row.rec in slice[1..];
        }
      }
      forall x | x in slice ensures exists row :: row in r && row.rec == x {
        if x == slice[0] {
          assert head[0] in r;
        } else {
          assert x in slice[1..];
          var row :| row in tail && row.rec == x;
          assert row in r;
        }
      }
      r
  }

  /** The left column of `slice.merge(prev, on="States", how="left")`:
      each row of `slice`, in order, once for every partner it has in
      `prev`, or once when it has none. */
  function MergedLeftRows(slice: seq<PopRecord>, prev: seq<PopRecord>): (r: seq<PopRecord>)
    decreases |slice|
  {
    if |slice| == 0 then []
    else
      var k := |Matches(prev, slice[0].state)|;
      seq(if k == 0 then 1 else k, _ => slice[0]) + MergedLeftRows(slice[1..], prev)
  }

  lemma ColumnsAppend(a: seq<JoinedRow>, b: seq<JoinedRow>)
    ensures Columns(a + b) == Columns(a) + Columns(b)
  {
  }

  lemma JoinOneColumns(x: PopRecord, ms: seq<PopRecord>)
    ensures Columns(JoinOne(x, ms)) == seq(if |ms| == 0 then 1 else |ms|, _ => x)
  {
    var r := JoinOne(x, ms);
    assert forall k :: 0 <= k < |r| ==> r[k] in r;
  }

  /** The merge's rows, read by their left columns, are the slice rows in
      order, each repeated once per partner: the merge keeps order and
      has one row per (slice row, partner) pair. */
  lemma {:induction false} LeftJoinOrder(slice: seq<PopRecord>, prev: seq<PopRecord>)
    ensures Columns(LeftJoinPrev(slice, prev)) == MergedLeftRows(slice, prev)
    decreases |slice|
  {
    if |slice| > 0 {
      var head := JoinOne(slice[0], Matches(prev, slice[0].state));
      var tail := LeftJoinPrev(slice[1..], prev);
      assert LeftJoinPrev(slice, prev) == head + tail;
      ColumnsAppend(head, tail);
      JoinOneColumns(slice[0], Matches(prev, slice[0].state));
      LeftJoinOrder(slice[1..], prev);
    }
  }

  /** The `k`-th partner of `x` gives the `k`-th joined row. */
  lemma JoinOnePartner(x: PopRecord, ms: seq<PopRecord>, k: nat)
    requires k < |ms|
    ensures JoinedRow(x, Some(ms[k].population)) in JoinOne(x, ms)
  {
    assert JoinOne(x, ms)[k] == JoinedRow(x, Some(ms[k].population));
  }

  /** One pairing of a slice row with a previous-year row of its state is
      a row of the merge. */
  lemma {:induction false} LeftJoinHasPartner(slice: seq<PopRecord>, prev: seq<PopRecord>, x: PopRecord, m: PopRecord)
    requires x in slice && m in prev && m.state == x.state
    ensures JoinedRow(x, Some(m.population)) in LeftJoinPrev(slice, prev)
    decreases |slice|
  {
    var ms := Matches(prev, slice[0].state);
    var head := JoinOne(slice[0], ms);
    var tail := LeftJoinPrev(slice[1..], prev);
    assert LeftJoinPrev(slice, prev) == head + tail;
    if x == slice[0] {
      assert m in ms;
      var k :| 0 <= k < |ms| && ms[k] == m;
      JoinOnePartner(x, ms, k);
    } else {
      assert x in slice[1..];
      LeftJoinHasPartner(slice[1..], prev, x, m);
    }
  }

  /** Every pairing of a slice row with a previous-year row of the same
      state is a row of the merge. */
  lemma LeftJoinKeepsPartners(slice: seq<PopRecord>, prev: seq<PopRecord>)
    ensures forall x, m :: x in slice && m in prev && m.state == x.state ==>
      JoinedRow(x, Some(m.population)) in LeftJoinPrev(slice, prev)
  {
    forall x, m | x in slice && m in prev && m.state == x.state
      ensures JoinedRow(x, Some(m.population)) in LeftJoinPrev(slice, prev)
    {
      LeftJoinHasPartner(slice, prev, x, m);
    }
  }

  lemma JoinOneUnique(x: PopRecord, prev: seq<PopRecord>)
    requires |Matches(prev, x.state)| <= 1
    ensures JoinOne(x, Matches(prev, x.state)) == [JoinedRow(x, Lookup(prev, x.state))]
  {
    var ms := Matches(prev, x.state);
    if |ms| == 1 {
      assert JoinOne(x, ms)[0] == JoinedRow(x, Some(ms[0].population));
    }
  }

  /** The left join of a non-empty slice whose first row has at most one
      partner starts with that row and continues with the join of the rest. */
  lemma JoinStep(slice: seq<PopRecord>, prev: seq<PopRecord>)
    requires |slice| > 0 && |Matches(prev, slice[0].state)| <= 1
    ensures LeftJoinPrev(slice, prev) ==
      [JoinedRow(slice[0], Lookup(prev, slice[0].state))] + LeftJoinPrev(slice[1..], prev)
  {
    JoinOneUnique(slice[0], prev);
  }

  /** No row of `slice` has more than one partner in `prev`. */
  predicate AtMostOnePartner(slice: seq<PopRecord>, prev: seq<PopRecord>)
  {
    forall i :: 0 <= i < |slice| ==> |Matches(prev, slice[i].state)| <= 1
  }

  lemma {:induction false} JoinKeepsLength(slice: seq<PopRecord>, prev: seq<PopRecord>)
    requires AtMostOnePartner(slice, prev)
    ensures |LeftJoinPrev(slice, prev)| == |slice|
    decreases |slice|
  {
    if |slice| > 0 {
      JoinStep(slice, prev);
      assert AtMostOnePartner(slice[1..], prev) by {
        forall i | 0 <= i < |slice[1..]| ensures |Matches(prev, slice[1..][i].state)| <= 1 {
          assert slice[1..][i] == slice[i + 1];
        }
      }
      JoinKeepsLength(slice[1..], prev);
    }
  }

  lemma {:induction false} JoinAt(slice: seq<PopRecord>, prev: seq<PopRecord>, i: nat)
    requires AtMostOnePartner(slice, prev) && i < |slice|
    ensures i < |LeftJoinPrev(slice, prev)|
    ensures LeftJoinPrev(slice, prev)[i] == JoinedRow(slice[i], Lookup(prev, slice[i].state))
    decreases i
  {
    var rest := slice[1..];
    var r := LeftJoinPrev(slice, prev);
    assert r == [JoinedRow(slice[0], Lookup(prev, slice[0].state))] + LeftJoinPrev(rest, prev) by {
      JoinStep(slice, prev);
    }
    if i > 0 {
      assert i - 1 < |LeftJoinPrev(rest, prev)| &&
        LeftJoinPrev(rest, prev)[i - 1] == JoinedRow(slice[i], Lookup(prev, slice[i].state)) by {
        assert AtMostOnePartner(rest, prev) by {
          forall k | 0 <= k < |rest| ensures |Matches(prev, rest[k].state)| <= 1 {
            assert rest[k] == slice[k + 1];
          }
        }
        JoinAt(rest, prev, i - 1);
        assert rest[i - 1] == slice[i];
      }
    }
  }

  /** When no state has more than one partner, the left join keeps the
      rows of `slice` one for one, each with its partner's population or
      the absent marker. */
  lemma JoinOneToOne(slice: seq<PopRecord>, prev: seq<PopRecord>)
    requires forall x :: x in slice ==> |Matches(prev, x.state)| <= 1
    ensures |LeftJoinPrev(slice, prev)| == |slice|
    ensures forall i :: 0 <= i < |slice| ==>
      LeftJoinPrev(slice, prev)[i] == JoinedRow(slice[i], Lookup(prev, slice[i].state))
  {
    assert AtMostOnePartner(slice, prev) by {
      forall i | 0 <= i < |slice| ensures |Matches(prev, slice[i].state)| <= 1 {
        assert slice[i] in slice;
      }
    }
    JoinKeepsLength(slice, prev);
    forall i | 0 <= i < |slice|
      ensures LeftJoinPrev(slice, prev)[i] == JoinedRow(slice[i], Lookup(prev, slice[i].state))
    {
      JoinAt(slice, prev, i);
    }
  }

  /** The frame `fdf` for the selected year: its slice, left-joined with
      the slice of the year before on the state name. */
  function View(recs: seq<PopRecord>, year: int): (r: seq<JoinedRow>)
    ensures |r| == 0 <==> forall x :: x in recs ==> x.year != year
    ensures forall row :: row in r ==> row.rec in recs && row.rec.year == year
    ensures forall x :: x in recs && x.year == year ==> exists row :: row in r && row.rec == x
    ensures forall row :: row in r ==> (row.prev.None? <==> PopulationAt(recs, row.rec.state, year - 1).None?)
    ensures forall row :: row in r && row.prev.Some? ==>
      exists m :: m in recs && m.state == row.rec.state && m.year == year - 1 && m.population == row.prev.value
  {
    var slice := Slice(recs, year);
    assert |slice| > 0 ==> slice[0] in slice;
    LeftJoinPrev(slice, Slice(recs, year - 1))
  }

  /** With unique (state, year) keys the join neither drops nor repeats
      rows: the view is the year slice, row for row, each carrying the
      state's population in the year before, or the absent marker. */
  lemma ViewIsSliceWithPrevious(recs: seq<PopRecord>, year: int)
    requires UniqueKeys(recs)
    ensures |View(recs, year)| == |Slice(recs, year)|
    ensures forall i :: 0 <= i < |View(recs, year)| ==>
      View(recs, year)[i] ==
        JoinedRow(Slice(recs, year)[i], PopulationAt(recs, Slice(recs, year)[i].state, year - 1))
  {
    forall x | x in Slice(recs, year) ensures |Matches(Slice(recs, year - 1), x.state)| <= 1 {
      UniqueSliceMatches(recs, year - 1, x.state);
    }
    JoinOneToOne(Slice(recs, year), Slice(recs, year - 1));
  }

  /** With unique (Year, State) pairs the filtered table's own columns
      are the year slice itself, in order. */
  lemma ViewColumnsAreSlice(recs: seq<PopRecord>, year: int)
    requires UniqueKeys(recs)
    ensures |View(recs, year)| == |Slice(recs, year)|
    ensures Columns(View(recs, year)) == Slice(recs, year)
  {
    ViewIsSliceWithPrevious(recs, year);
  }

  /** With unique (Year, State) pairs, a row of the view carries exactly
      its state's population in the year before, or nothing. */
  lemma ViewRowPrevious(recs: seq<PopRecord>, year: int, row: JoinedRow)
    requires UniqueKeys(recs) && row in View(recs, year)
    ensures row.prev == PopulationAt(recs, row.rec.state, year - 1)
  {
    ViewIsSliceWithPrevious(recs, year);
    var k :| 0 <= k < |View(recs, year)| && View(recs, year)[k] == row;
  }

  /** In the first year of the table no row has a previous-year value. */
  lemma FirstYearHasNoPrevious(recs: seq<PopRecord>, year: int)
    requires forall x :: x in recs ==> year <= x.year
    ensures forall row :: row in View(recs, year) ==> row.prev.None?
  {
  }

  /** The KPI delta: current minus previous population when the previous
      value exists, and absent (never zero) when it does not. */
  function Delta(row: JoinedRow): (d: Option<int>)
    ensures d.None? <==> row.prev.None?
    ensures d.Some? ==> row.prev.value + d.value == row.rec.population
  {
    match row.prev
    case None => None
    case Some(p) => Some(row.rec.population - p)
  }

  /** `fmt_delta_k`: an absent delta is shown as the dash. */
  function FormatDelta(d: Option<int>): (r: DeltaLabel)
    ensures r.Marker? <==> d.None?
    ensures r.Marker? ==> r.text == AbsentMark
    ensures r.Thousands? ==> d == Some(r.delta)
  {
    match d
    case None => Marker(AbsentMark)
    case Some(v) => Thousands(v)
  }

  /** `idxmax` / `idxmin` on Population: the first row with the largest and
      the first row with the smallest population, with their deltas. An
      empty frame has neither, and the script stops there. */
  function GainsLosses(view: seq<JoinedRow>): (r: Result<Kpis, DashboardError>)
    ensures r.Failure? <==> |view| == 0
    ensures r.Failure? ==> r.error == EmptySlice
    ensures r.Success? ==>
      && r.value.top in view && r.value.low in view
      && (forall x :: x in view ==> x.rec.population <= r.value.top.rec.population)
      && (forall x :: x in view ==> r.value.low.rec.population <= x.rec.population)
      && r.value.topDelta == Delta(r.value.top)
      && r.value.lowDelta == Delta(r.value.low)
    ensures r.Success? ==>
      exists k :: 0 <= k < |view| && view[k] == r.value.top &&
        forall j :: 0 <= j < k ==> view[j].rec.population < r.value.top.rec.population
    ensures r.Success? ==>
      exists k :: 0 <= k < |view| && view[k] == r.value.low &&
        forall j :: 0 <= j < k ==> r.value.low.rec.population < view[j].rec.population
  {
    if |view| == 0 then Failure(EmptySlice)
    else
      var top := view[ArgMaxBy(view, RowPopulation)];
      var low := view[ArgMinBy(view, RowPopulation)];
      Success(Kpis(top, low, Delta(top), Delta(low)))
  }

  /** `sort_values("Population", ascending=False).head(10)`: at most ten
      rows of the year, largest population first; no row left out has a
      larger population than a row shown. */
  function TopStates(view: seq<JoinedRow>): (r: seq<JoinedRow>)
    ensures |r| == Min(TopCount, |view|)
    ensures NonIncreasing(r, RowPopulation)
    ensures multiset(r) <= multiset(view)
    ensures forall x, y :: x in multiset(view) - multiset(r) && y in r ==>
      x.rec.population <= y.rec.population
  {
    TakeTop(view, RowPopulation, TopCount)
  }

  /** The States, Id, Year and Population columns of the view. */
  function Columns(view: seq<JoinedRow>): (r: seq<PopRecord>)
    ensures |r| == |view| && forall i :: 0 <= i < |view| ==> r[i] == view[i].rec
  {
    seq(|view|, i requires 0 <= i < |view| => view[i].rec)
  }

  /** The table shown under "Show Filtered Data": the view's rows without
      `Population_prev`, all of them, ordered by population descending. */
  function ExportTable(view: seq<JoinedRow>): (r: seq<PopRecord>)
    ensures multiset(r) == multiset(Columns(view))
    ensures NonIncreasing(r, PopulationOf)
  {
    SortDesc(Columns(view), PopulationOf)
  }
}
