/** The page as the script builds it for one chosen year: the year
    selector, the Gains / Losses cards, the Top States chart, the
    filtered table and the heatmap. The script stops at the first step
    that raises; the model returns that step's error. */
module Dashboard {
  import opened Wrappers
  import opened Dataset
  import opened Loader
  import opened Metrics
  import opened Heatmap

  datatype Page = Page(
    selector: YearSelector,
    year: int,
    kpis: Kpis,
    topLabel: DeltaLabel,
    lowLabel: DeltaLabel,
    top: seq<JoinedRow>,
    table: seq<PopRecord>,
    heat: seq<HeatCell>)

  /** Everything below the sidebar for `year`, in the order the script
      computes it (app.py:44-159): the selector needs a non-empty table,
      the cards need a row for the year, the heatmap needs unique
      (Year, State) pairs. */
  function Render(recs: seq<PopRecord>, year: int): (r: Result<Page, DashboardError>)
    ensures r.Success? <==>
      |recs| > 0 && (exists x :: x in recs && x.year == year) && UniqueKeys(recs)
    ensures |recs| == 0 ==> r == Failure(NoData)
    ensures |recs| > 0 && (forall x :: x in recs ==> x.year != year) ==> r == Failure(EmptySlice)
    ensures r.Failure? && r.error == DuplicateEntry ==> !UniqueKeys(recs)
    ensures |recs| > 0 && (exists x :: x in recs && x.year == year) && !UniqueKeys(recs) ==>
      r == Failure(DuplicateEntry)
  {
    match Selector(recs)
    case Failure(e) => Failure(e)
    case Success(sel) =>
      var view := View(recs, year);
      match GainsLosses(view)
      case Failure(e) => Failure(e)
      case Success(k) =>
        match Pivot(recs)
        case Failure(e) => Failure(e)
        case Success(heat) =>
          Success(Page(sel, year, k, FormatDelta(k.topDelta), FormatDelta(k.lowDelta),
                       TopStates(view), ExportTable(view), heat))
  }

  /** The cards of a rendered page name a largest and a smallest row of
      the chosen year. */
  lemma RenderedCards(recs: seq<PopRecord>, year: int)
    requires |recs| > 0 && (exists x :: x in recs && x.year == year) && UniqueKeys(recs)
    ensures var p := Render(recs, year).value;
      && p.kpis.top.rec in recs && p.kpis.top.rec.year == year
      && (forall x :: x in recs && x.year == year ==> x.population <= p.kpis.top.rec.population)
      && p.kpis.low.rec in recs && p.kpis.low.rec.year == year
      && (forall x :: x in recs && x.year == year ==> p.kpis.low.rec.population <= x.population)
  {
    var view := View(recs, year);
    assert view[0] in view;
  }

  /** A card's delta label shows the current population minus the state's
      population in the year before, and is the absent marker exactly when
      the table has no row for that state and year. */
  lemma RenderedDeltas(recs: seq<PopRecord>, year: int)
    requires |recs| > 0 && (exists x :: x in recs && x.year == year) && UniqueKeys(recs)
    ensures var p := Render(recs, year).value;
      var prev := PopulationAt(recs, p.kpis.top.rec.state, year - 1);
      && (p.topLabel.Marker? <==> prev.None?)
      && (p.topLabel.Thousands? ==> p.topLabel.delta == p.kpis.top.rec.population - prev.value)
    ensures var p := Render(recs, year).value;
      var prev := PopulationAt(recs, p.kpis.low.rec.state, year - 1);
      && (p.lowLabel.Marker? <==> prev.None?)
      && (p.lowLabel.Thousands? ==> p.lowLabel.delta == p.kpis.low.rec.population - prev.value)
  {
    var p := Render(recs, year).value;
    ViewRowPrevious(recs, year, p.kpis.top);
    ViewRowPrevious(recs, year, p.kpis.low);
  }

  /** The chart of a rendered page holds ten rows of the year, or all of
      them when there are fewer; its table holds exactly the rows of the
      year. */
  lemma RenderedTables(recs: seq<PopRecord>, year: int)
    requires |recs| > 0 && (exists x :: x in recs && x.year == year) && UniqueKeys(recs)
    ensures |Render(recs, year).value.top| == Min(TopCount, |Slice(recs, year)|)
    ensures forall row :: row in Render(recs, year).value.top ==> row.rec in recs && row.rec.year == year
    ensures multiset(Render(recs, year).value.table) == multiset(Slice(recs, year))
  {
    ViewColumnsAreSlice(recs, year);
    var view := View(recs, year);
    var p := Render(recs, year).value;
    assert p.top == TopStates(view) && p.table == ExportTable(view);
    var top := p.top;
    forall row | row in top ensures row.rec in recs && row.rec.year == year {
      assert row in multiset(top);
      assert row in view;
    }
  }

  /** The heatmap of a rendered page holds every row of the table. */
  lemma RenderedHeatmap(recs: seq<PopRecord>, year: int)
    requires |recs| > 0 && (exists x :: x in recs && x.year == year) && UniqueKeys(recs)
    ensures forall x :: x in recs ==> HeatCell(x.year, x.state, x.population) in Render(recs, year).value.heat
  {
    PivotKeepsAllObserved(recs);
  }

  /** The year the sidebar opens on, the last option of the selector, is
      one the table has rows for; with unique (Year, State) pairs the page
      renders for it. */
  lemma DefaultYearRenders(recs: seq<PopRecord>)
    requires |recs| > 0 && UniqueKeys(recs)
    ensures Selector(recs).Success?
    ensures Render(recs, Selector(recs).value.options[Selector(recs).value.defaultIndex]).Success?
  {
  }

  /** A wide table with distinct state names and distinct year headers,
      with at least one state and one year, loads and renders on the
      default year. */
  lemma LoadedTableRenders(t: WideTable)
    requires Rectangular(t) && Load(t).Success?
    requires DistinctStates(t) && DistinctYears(t)
    requires |t.rows| > 0 && |t.yearHeaders| > 0
    ensures Selector(Load(t).value).Success?
    ensures Render(Load(t).value,
      Selector(Load(t).value).value.options[Selector(Load(t).value).value.defaultIndex]).Success?
  {
    LoadLayout(t, 0, 0);
    LoadKeysUnique(t);
    DefaultYearRenders(Load(t).value);
  }
}
