/** The long-form population table produced by the loader, and the
    lookups the dashboard performs on it: a year slice (a boolean mask on
    `Year`), the rows of one state, and the population of a (state, year)
    pair. */
module Dataset {
  import opened Wrappers
  import Seqs

  /** One row of the long table: the columns States, Id, Year, Population. */
  datatype PopRecord = PopRecord(state: string, id: int, year: int, population: int)

  /** The exceptions the dashboard script raises on a loaded table:
      `min()` of an empty Year column, `idxmax` on an empty year slice, and
      `pivot` on a repeated (Year, States) pair. */
  datatype DashboardError = NoData | EmptySlice | DuplicateEntry

  /** No two rows share a (state, year) pair: the condition under which a
      pivot on (Year, States) is defined. */
  predicate UniqueKeys(recs: seq<PopRecord>)
  {
    forall i, j :: 0 <= i < j < |recs| ==>
      recs[i].state != recs[j].state || recs[i].year != recs[j].year
  }

  function InYear(year: int): PopRecord -> bool
  {
    (x: PopRecord) => x.year == year
  }

  function OfState(state: string): PopRecord -> bool
  {
    (x: PopRecord) => x.state == state
  }

  /** `df[df["Year"] == year]`: the rows of one year, in table order. Each
      row of that year is kept as often as it occurs, and no other row. */
  function Slice(recs: seq<PopRecord>, year: int): (r: seq<PopRecord>)
    ensures forall x :: x in r <==> x in recs && x.year == year
    ensures multiset(r) <= multiset(recs)
    ensures forall x :: multiset(r)[x] == if x.year == year then multiset(recs)[x] else 0
  {
    Seqs.FilterSubMultiset(recs, InYear(year));
    Seqs.FilterCount(recs, InYear(year));
    Seqs.Filter(recs, InYear(year))
  }

  /** The mask works piece by piece: slicing a table split in two slices
      each part, so the kept rows stay in table order. */
  lemma SliceAppend(a: seq<PopRecord>, b: seq<PopRecord>, year: int)
    ensures Slice(a + b, year) == Slice(a, year) + Slice(b, year)
  {
    Seqs.FilterAppend(a, b, InYear(year));
  }

  /** The rows of `recs` whose state is `state`, in table order: the
      partners a merge on "States" finds for one row. */
  function Matches(recs: seq<PopRecord>, state: string): (r: seq<PopRecord>)
    ensures forall x :: x in r <==> x in recs && x.state == state
  {
    Seqs.Filter(recs, OfState(state))
  }

  /** The population of the first row of `recs` for `state`, or absent. */
  function Lookup(recs: seq<PopRecord>, state: string): (r: Option<int>)
    ensures r.None? <==> forall x :: x in recs ==> x.state != state
    ensures r.Some? ==> exists x :: x in recs && x.state == state && x.population == r.value
  {
    var ms := Matches(recs, state);
    if |ms| == 0 then None
    else
      assert ms[0] in ms;
      Some(ms[0].population)
  }

  /** The observed population of `state` in `year`, or absent when the
      table has no such row. */
  function PopulationAt(recs: seq<PopRecord>, state: string, year: int): (r: Option<int>)
    ensures r.None? <==> forall x :: x in recs ==> !(x.state == state && x.year == year)
    ensures r.Some? ==>
      exists x :: x in recs && x.state == state && x.year == year && x.population == r.value
  {
    Lookup(Slice(recs, year), state)
  }

  /** With unique keys, every row is found again by its own (state, year). */
  lemma PopulationAtUnique(recs: seq<PopRecord>, k: nat)
    requires UniqueKeys(recs)
    requires k < |recs|
    ensures PopulationAt(recs, recs[k].state, recs[k].year) == Some(recs[k].population)
  {
    var r := PopulationAt(recs, recs[k].state, recs[k].year);
    assert recs[k] in recs;
    var x :| x in recs && x.state == recs[k].state && x.year == recs[k].year && x.population == r.value;
    var k' :| 0 <= k' < |recs| && recs[k'] == x;
  }

  /** With unique keys, a state has at most one row in any year slice. */
  lemma UniqueSliceMatches(recs: seq<PopRecord>, year: int, state: string)
    requires UniqueKeys(recs)
    ensures |Matches(Slice(recs, year), state)| <= 1
  {
    Seqs.FilterTwiceAtMostOne(recs, InYear(year), OfState(state));
  }
}
