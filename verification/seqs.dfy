/** Sequence helpers: order-preserving filtering, as a boolean mask on a
    data frame or `str.replace` with an empty replacement does it. */
module Seqs {

  /** The elements of `s` that satisfy `p`, in their original order. */
  function Filter<T(!new)>(s: seq<T>, p: T -> bool): (r: seq<T>)
    ensures |r| <= |s|
    ensures forall x :: x in r <==> x in s && p(x)
  {
    if |s| == 0 then []
    else if p(s[0]) then
      assert s == [s[0]] + s[1..];
      [s[0]] + Filter(s[1..], p)
    else
      assert s == [s[0]] + s[1..];
      Filter(s[1..], p)
  }

  /** Filtering keeps each element at most as often as it occurs. */
  lemma {:induction false} FilterSubMultiset<T(!new)>(s: seq<T>, p: T -> bool)
    ensures multiset(Filter(s, p)) <= multiset(s)
    decreases |s|
  {
    if |s| > 0 {
      assert s == [s[0]] + s[1..];
      FilterSubMultiset(s[1..], p);
    }
  }

  /** Filtering keeps every occurrence of an element that passes and no
      occurrence of one that does not. */
  lemma {:induction false} FilterCount<T(!new)>(s: seq<T>, p: T -> bool)
    ensures forall x :: multiset(Filter(s, p))[x] == if p(x) then multiset(s)[x] else 0
    decreases |s|
  {
    if |s| > 0 {
      assert s == [s[0]] + s[1..];
      FilterCount(s[1..], p);
    }
  }

  /** Filtering distributes over concatenation. */
  lemma {:induction false} FilterAppend<T(!new)>(a: seq<T>, b: seq<T>, p: T -> bool)
    ensures Filter(a + b, p) == Filter(a, p) + Filter(b, p)
    decreases |a|
  {
    if |a| == 0 {
      assert a + b == b;
    } else {
      assert (a + b)[0] == a[0];
      assert (a + b)[1..] == a[1..] + b;
      FilterAppend(a[1..], b, p);
    }
  }

  /** Filtering a sequence none of whose elements pass leaves nothing. */
  lemma {:induction false} FilterNonePass<T(!new)>(s: seq<T>, p: T -> bool)
    requires forall i :: 0 <= i < |s| ==> !p(s[i])
    ensures Filter(s, p) == []
    decreases |s|
  {
    if |s| > 0 {
      FilterNonePass(s[1..], p);
    }
  }

  /** Filtering a sequence whose elements all pass leaves it unchanged. */
  lemma {:induction false} FilterAllPass<T(!new)>(s: seq<T>, p: T -> bool)
    requires forall i :: 0 <= i < |s| ==> p(s[i])
    ensures Filter(s, p) == s
    decreases |s|
  {
    if |s| > 0 {
      FilterAllPass(s[1..], p);
      assert s == [s[0]] + s[1..];
    }
  }

  /** Filtering `a`, a rejected separator and a block that passes
      whole: the separator goes, the block stays. */
  lemma FilterJoin<T(!new)>(a: seq<T>, sep: T, b: seq<T>, p: T -> bool)
    requires !p(sep)
    requires forall i :: 0 <= i < |b| ==> p(b[i])
    ensures Filter(a + [sep] + b, p) == Filter(a, p) + b
  {
    assert a + [sep] + b == a + ([sep] + b);
    FilterAppend(a, [sep] + b, p);
    assert ([sep] + b)[1..] == b;
    FilterAllPass(b, p);
  }

  /** When no two positions of `s` both pass `p` and `q`, filtering by `p`
      and then by `q` leaves at most one element. */
  lemma {:induction false} FilterTwiceAtMostOne<T(!new)>(s: seq<T>, p: T -> bool, q: T -> bool)
    requires forall i, j :: 0 <= i < j < |s| && p(s[i]) && q(s[i]) ==> !(p(s[j]) && q(s[j]))
    ensures |Filter(Filter(s, p), q)| <= 1
    decreases |s|
  {
    if |s| > 0 {
      var rest := s[1..];
      forall i, j | 0 <= i < j < |rest| && p(rest[i]) && q(rest[i])
        ensures !(p(rest[j]) && q(rest[j]))
      {
        assert rest[i] == s[i + 1] && rest[j] == s[j + 1];
      }
      FilterTwiceAtMostOne(rest, p, q);
      var f := Filter(rest, p);
      if p(s[0]) {
        var g := [s[0]] + f;
        assert Filter(s, p) == g;
        assert g[0] == s[0] && g[1..] == f;
        if q(s[0]) {
          forall i | 0 <= i < |f| ensures !q(f[i]) {
            assert f[i] in f;
            var j :| 0 <= j < |rest| && rest[j] == f[i];
            assert s[j + 1] == f[i];
          }
          FilterNonePass(f, q);
        }
      }
    }
  }
}
