/** The heatmap table (app.py:120-125): the long table pivoted to a
    Year x States grid, gaps filled with 0, and melted back into one
    (Year, State, Population) cell per grid position. */
module Heatmap {
  import opened Wrappers
  import opened Numbers
  import opened Dataset

  datatype HeatCell = HeatCell(year: int, state: string, population: int)

  /** Python's ordering of strings: code point by code point, a proper
      prefix first. `pivot` sorts its column labels this way. */
  predicate LexLess(a: string, b: string)
    decreases |a|
  {
    if |b| == 0 then false
    else if |a| == 0 then true
    else if a[0] != b[0] then a[0] < b[0]
    else LexLess(a[1..], b[1..])
  }

  lemma {:induction false} LexLessIrreflexive(a: string)
    ensures !LexLess(a, a)
    decreases |a|
  {
    if |a| > 0 {
      LexLessIrreflexive(a[1..]);
    }
  }

  lemma {:induction false} LexLessTransitive(a: string, b: string, c: string)
    requires LexLess(a, b) && LexLess(b, c)
    ensures LexLess(a, c)
    decreases |a|
  {
    if |a| > 0 && a[0] == b[0] && b[0] == c[0] {
      LexLessTransitive(a[1..], b[1..], c[1..]);
    }
  }

  lemma {:induction false} LexLessTotal(a: string, b: string)
    requires a != b
    ensures LexLess(a, b) || LexLess(b, a)
    decreases |a|
  {
    if |a| > 0 && |b| > 0 && a[0] == b[0] {
      assert a == [a[0]] + a[1..] && b == [b[0]] + b[1..];
      LexLessTotal(a[1..], b[1..]);
    }
  }

  predicate AscendingStates(s: seq<string>)
  {
    forall i, j :: 0 <= i < j < |s| ==> LexLess(s[i], s[j])
  }

  predicate AscendingYears(s: seq<int>)
  {
    forall i, j :: 0 <= i < j < |s| ==> s[i] < s[j]
  }

  /** Adds a state name to a strictly ascending list of names, once. */
  function InsertState(x: string, s: seq<string>): (r: seq<string>)
    requires AscendingStates(s)
    ensures AscendingStates(r)
    ensures forall y :: y in r <==> y == x || y in s
    decreases |s|
  {
    if |s| == 0 then [x]
    else if x == s[0] then s
    else if LexLess(x, s[0]) then
      assert forall j :: 0 <= j < |s| ==> LexLess(x, s[j]) by {
        forall j | 0 <= j < |s| ensures LexLess(x, s[j]) {
          if j > 0 { LexLessTransitive(x, s[0], s[j]); }
        }
      }
      [x] + s
    else
      LexLessTotal(x, s[0]);
      var t := InsertState(x, s[1..]);
      assert forall y :: y in t ==> LexLess(s[0], y) by {
        forall y | y in t ensures LexLess(s[0], y) {
          if y != x {
            var j :| 1 <= j < |s| && s[j] == y;
          }
        }
      }
      assert forall y :: y in s ==> y == s[0] || y in s[1..];
      [s[0]] + t
  }

  lemma PrependYear(a: int, t: seq<int>)
    requires AscendingYears(t)
    requires forall y :: y in t ==> a < y
    ensures AscendingYears([a] + t)
  {
    forall i, j | 0 <= i < j < |t| + 1 ensures ([a] + t)[i] < ([a] + t)[j] {
      assert t[j - 1] in t;
    }
  }

  /** Adds a year to a strictly ascending list of years, once. */
  function InsertYear(x: int, s: seq<int>): (r: seq<int>)
    requires AscendingYears(s)
    ensures AscendingYears(r)
    ensures forall y :: y in r <==> y == x || y in s
    decreases |s|
  {
    if |s| == 0 || x < s[0] then
      assert forall y :: y in s ==> x < y;
      PrependYear(x, s);
      [x] + s
    else if x == s[0] then s
    else
      var t := InsertYear(x, s[1..]);
      assert forall y :: y in s ==> y == s[0] || y in s[1..];
      assert forall y :: y in t ==> s[0] < y;
      PrependYear(s[0], t);
      [s[0]] + t
  }

  /** The pivot's column labels: every state of the table, once, sorted. */
  function StateAxis(recs: seq<PopRecord>): (r: seq<string>)
    ensures AscendingStates(r)
    ensures forall s :: s in r <==> exists x :: x in recs && x.state == s
    decreases |recs|
  {
    if |recs| == 0 then []
    else
      assert forall x :: x in recs ==> x == recs[0] || x in recs[1..];
      InsertState(recs[0].state, StateAxis(recs[1..]))
  }

  /** The pivot's index: every year of the table, once, ascending. */
  function YearAxis(recs: seq<PopRecord>): (r: seq<int>)
    ensures AscendingYears(r)
    ensures forall y :: y in r <==> exists x :: x in recs && x.year == y
    decreases |recs|
  {
    if |recs| == 0 then []
    else
      assert forall x :: x in recs ==> x == recs[0] || x in recs[1..];
      InsertYear(recs[0].year, YearAxis(recs[1..]))
  }

  /** `fillna(0)`: the observed population of a pair, or 0 when the table
      has no row for it. */
  function Fill(recs: seq<PopRecord>, year: int, state: string): (v: int)
    ensures (forall x :: x in recs ==> x.state != state || x.year != year) ==> v == 0
    ensures (exists x :: x in recs && x.state == state && x.year == year) ==>
      exists x :: x in recs && x.state == state && x.year == year && x.population == v
  {
    match PopulationAt(recs, state, year)
    case Some(p) => p
    case None => 0
  }

  /** One melted column of the pivot: the cells of `state`, year by year. */
  function Column(recs: seq<PopRecord>, years: seq<int>, state: string): (r: seq<HeatCell>)
  {
    seq(|years|, j requires 0 <= j < |years| => HeatCell(years[j], state, Fill(recs, years[j], state)))
  }

  lemma ColumnCells(recs: seq<PopRecord>, years: seq<int>, state: string)
    ensures |Column(recs, years, state)| == |years|
    ensures forall c: HeatCell :: c in Column(recs, years, state) <==>
      (c.state == state && c.year in years && c.population == Fill(recs, c.year, c.state))
  {
    var col := Column(recs, years, state);
    forall c: HeatCell | c.state == state && c.year in years && c.population == Fill(recs, c.year, c.state)
      ensures c in col
    {
      var j :| 0 <= j < |years| && years[j] == c.year;
      assert col[j] == c;
    }
  }

  /** `melt("Year")` of the filled pivot: column by column, one cell per
      (state, year) of the axes. */
  function Grid(recs: seq<PopRecord>, states: seq<string>, years: seq<int>): (r: seq<HeatCell>)
    ensures |r| == |states| * |years|
    ensures forall c :: c in r <==>
      c.state in states && c.year in years && c.population == Fill(recs, c.year, c.state)
    decreases |states|
  {
    if |states| == 0 then []
    else
      assert |states| * |years| == |years| + (|states| - 1) * |years|;
      ColumnCells(recs, years, states[0]);
      assert forall s :: s in states ==> s == states[0] || s in states[1..];
      Column(recs, years, states[0]) + Grid(recs, states[1..], years)
  }

  /** On axes without repeats, no (year, state) pair appears twice. */
  lemma {:induction false} GridPairsDistinct(recs: seq<PopRecord>, states: seq<string>, years: seq<int>)
    requires AscendingStates(states) && AscendingYears(years)
    ensures forall a, b :: 0 <= a < b < |Grid(recs, states, years)| ==>
      Grid(recs, states, years)[a].year != Grid(recs, states, years)[b].year ||
      Grid(recs, states, years)[a].state != Grid(recs, states, years)[b].state
    decreases |states|
  {
    if |states| > 0 {
      var col := Column(recs, years, states[0]);
      var rest := Grid(recs, states[1..], years);
      var r := Grid(recs, states, years);
      GridPairsDistinct(recs, states[1..], years);
      assert r == col + rest;
      forall a, b | 0 <= a < b < |r| ensures r[a].year != r[b].year || r[a].state != r[b].state {
        if b < |col| {
          assert r[a] == col[a] && r[b] == col[b];
        } else if a >= |col| {
          assert r[a] == rest[a - |col|] && r[b] == rest[b - |col|];
        } else {
          assert r[a] == col[a] && r[b] == rest[b - |col|];
          assert rest[b - |col|] in rest;
          var k :| 1 <= k < |states| && states[k] == rest[b - |col|].state;
          LexLessIrreflexive(states[0]);
        }
      }
    }
  }

  /** `df.pivot(index="Year", columns="States").fillna(0)` melted back:
      one cell per (year, state) pair over all years and all states of the
      table, holding the observed population or 0. `pivot` refuses a table
      in which a (Year, States) pair repeats. */
  function Pivot(recs: seq<PopRecord>): (r: Result<seq<HeatCell>, DashboardError>)
    ensures r.Failure? <==> !UniqueKeys(recs)
    ensures r.Failure? ==> r.error == DuplicateEntry
    ensures r.Success? ==> |r.value| == |StateAxis(recs)| * |YearAxis(recs)|
    ensures r.Success? ==> forall c :: c in r.value <==>
      && (exists x :: x in recs && x.state == c.state)
      && (exists x :: x in recs && x.year == c.year)
      && c.population == Fill(recs, c.year, c.state)
  {
    if !UniqueKeys(recs) then Failure(DuplicateEntry)
    else Success(Grid(recs, StateAxis(recs), YearAxis(recs)))
  }

  /** Each (year, state) pair of the heatmap has exactly one cell. */
  lemma PivotCellsDistinct(recs: seq<PopRecord>)
    requires Pivot(recs).Success?
    ensures forall a, b :: 0 <= a < b < |Pivot(recs).value| ==>
      Pivot(recs).value[a].year != Pivot(recs).value[b].year ||
      Pivot(recs).value[a].state != Pivot(recs).value[b].state
  {
    GridPairsDistinct(recs, StateAxis(recs), YearAxis(recs));
  }

  /** Every row of the table shows up as its own cell, with its population. */
  lemma PivotKeepsObserved(recs: seq<PopRecord>, k: nat)
    requires Pivot(recs).Success?
    requires k < |recs|
    ensures HeatCell(recs[k].year, recs[k].state, recs[k].population) in Pivot(recs).value
  {
    PopulationAtUnique(recs, k);
    assert recs[k] in recs;
  }

  /** No row of the table is missing from the heatmap. */
  lemma PivotKeepsAllObserved(recs: seq<PopRecord>)
    requires Pivot(recs).Success?
    ensures forall x :: x in recs ==> HeatCell(x.year, x.state, x.population) in Pivot(recs).value
  {
    forall x | x in recs ensures HeatCell(x.year, x.state, x.population) in Pivot(recs).value {
      var k :| 0 <= k < |recs| && recs[k] == x;
      PivotKeepsObserved(recs, k);
    }
  }

  /** A state and a year that both occur in the table, but never together,
      get a cell holding 0. */
  lemma PivotFillsGapsWithZero(recs: seq<PopRecord>, state: string, year: int)
    requires Pivot(recs).Success?
    requires exists x :: x in recs && x.state == state
    requires exists x :: x in recs && x.year == year
    requires forall x :: x in recs ==> x.state != state || x.year != year
    ensures HeatCell(year, state, 0) in Pivot(recs).value
  {
  }
}
