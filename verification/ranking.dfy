/** Ordering operations the dashboard applies to a year slice: pandas'
    `idxmax` / `idxmin` (first occurrence of the extremum) and
    `sort_values(ascending=False).head(n)`. Keys are given as functions so
    the same operations serve the Population and Year columns. */
module Ranking {
  import opened Wrappers

  /** Keys never increase along `s`. */
  predicate NonIncreasing<T>(s: seq<T>, key: T -> int)
  {
    forall i, j :: 0 <= i < j < |s| ==> key(s[i]) >= key(s[j])
  }

  /** The position of the first element with the largest key. */
  function ArgMaxBy<T>(s: seq<T>, key: T -> int): (k: nat)
    requires |s| > 0
    ensures k < |s|
    ensures forall j :: 0 <= j < |s| ==> key(s[j]) <= key(s[k])
    ensures forall j :: 0 <= j < k ==> key(s[j]) < key(s[k])
    decreases |s|
  {
    if |s| == 1 then 0
    else
      var k := ArgMaxBy(s[..|s| - 1], key);
      if key(s[|s| - 1]) > key(s[k]) then |s| - 1 else k
  }

  /** The position of the first element with the smallest key. */
  function ArgMinBy<T>(s: seq<T>, key: T -> int): (k: nat)
    requires |s| > 0
    ensures k < |s|
    ensures forall j :: 0 <= j < |s| ==> key(s[k]) <= key(s[j])
    ensures forall j :: 0 <= j < k ==> key(s[k]) < key(s[j])
    decreases |s|
  {
    if |s| == 1 then 0
    else
      var k := ArgMinBy(s[..|s| - 1], key);
      if key(s[|s| - 1]) < key(s[k]) then |s| - 1 else k
  }

  /** Putting in front an element whose key is at least every key of a
      non-increasing sequence keeps it non-increasing. */
  lemma PrependDesc<T>(a: T, t: seq<T>, key: T -> int)
    requires NonIncreasing(t, key)
    requires forall y :: y in t ==> key(y) <= key(a)
    ensures NonIncreasing([a] + t, key)
  {
    forall i, j | 0 <= i < j < |t| + 1 ensures key(([a] + t)[i]) >= key(([a] + t)[j]) {
      assert ([a] + t)[j] == t[j - 1] && t[j - 1] in t;
    }
  }

  /** Inserts `x` before the first element whose key is not larger than
      its own. */
  function InsertDesc<T>(x: T, s: seq<T>, key: T -> int): (r: seq<T>)
    ensures multiset(r) == multiset(s) + multiset{x}
    ensures |r| == |s| + 1
    decreases |s|
  {
    if |s| == 0 || key(x) >= key(s[0]) then [x] + s
    else
      assert s == [s[0]] + s[1..];
      [s[0]] + InsertDesc(x, s[1..], key)
  }

  /** Inserting into a non-increasing sequence keeps it non-increasing. */
  lemma {:induction false} InsertDescSorted<T>(x: T, s: seq<T>, key: T -> int)
    requires NonIncreasing(s, key)
    ensures NonIncreasing(InsertDesc(x, s, key), key)
    decreases |s|
  {
    if |s| == 0 || key(x) >= key(s[0]) {
      forall y | y in s ensures key(y) <= key(x) {
        var j :| 0 <= j < |s| && s[j] == y;
      }
      PrependDesc(x, s, key);
    } else {
      var t := InsertDesc(x, s[1..], key);
      InsertDescSorted(x, s[1..], key);
      forall y | y in t ensures key(y) <= key(s[0]) {
        assert y in multiset(t);
        if y != x {
          assert y in multiset(s[1..]);
          var j :| 0 <= j < |s[1..]| && s[1..][j] == y;
          assert s[j + 1] == y;
        }
      }
      PrependDesc(s[0], t, key);
    }
  }

  /** `sort_values(key, ascending=False)`: the same elements, largest key
      first. */
  function SortDesc<T>(s: seq<T>, key: T -> int): (r: seq<T>)
    ensures NonIncreasing(r, key)
    ensures multiset(r) == multiset(s)
    ensures |r| == |s|
    decreases |s|
  {
    if |s| == 0 then []
    else
      assert s == [s[0]] + s[1..];
      InsertDescSorted(s[0], SortDesc(s[1..], key), key);
      InsertDesc(s[0], SortDesc(s[1..], key), key)
  }

  /** In a non-increasing sequence nothing after position `m` has a
      larger key than anything before it. */
  lemma SplitBounded<T>(sorted: seq<T>, key: T -> int, m: nat)
    requires NonIncreasing(sorted, key) && m <= |sorted|
    ensures forall x, y :: x in multiset(sorted[m..]) && y in sorted[..m] ==> key(x) <= key(y)
  {
    forall x, y | x in multiset(sorted[m..]) && y in sorted[..m] ensures key(x) <= key(y) {
      assert x in sorted[m..];
      var i :| 0 <= i < |sorted[m..]| && sorted[m..][i] == x;
      var j :| 0 <= j < m && sorted[..m][j] == y;
      assert sorted[m + i] == x && sorted[j] == y;
    }
  }

  lemma SplitMultiset<T>(s: seq<T>, m: nat)
    requires m <= |s|
    ensures multiset(s[..m]) <= multiset(s)
    ensures multiset(s) - multiset(s[..m]) == multiset(s[m..])
  {
    assert s == s[..m] + s[m..];
  }

  /** `sort_values(key, ascending=False).head(n)`: the `n` elements with the
      largest keys (all of them when there are fewer), largest first. No
      element left out has a larger key than one that was kept. */
  function TakeTop<T>(s: seq<T>, key: T -> int, n: nat): (r: seq<T>)
    ensures |r| == Min(n, |s|)
    ensures NonIncreasing(r, key)
    ensures multiset(r) <= multiset(s)
    ensures forall x, y :: x in multiset(s) - multiset(r) && y in r ==> key(x) <= key(y)
  {
    var sorted := SortDesc(s, key);
    var m := Min(n, |s|);
    var r := sorted[..m];
    SplitMultiset(sorted, m);
    SplitBounded(sorted, key, m);
    r
  }
}
