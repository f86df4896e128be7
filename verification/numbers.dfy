/** Text-to-number conversion used by the loader: Python's `int(...)` for
    ids and year headers, and `float(str(cell).replace(",", ""))` for
    population cells, both restricted to integer text. */
module Numbers {
  import opened Wrappers
  import Seqs

  predicate IsDigit(c: char)
  {
    '0' <= c <= '9'
  }

  predicate AllDigits(s: string)
  {
    forall i :: 0 <= i < |s| ==> IsDigit(s[i])
  }

  function DigitValue(c: char): (d: nat)
    requires IsDigit(c)
    ensures d < 10
  {
    (c as int) - ('0' as int)
  }

  function DigitChar(d: nat): (c: char)
    requires d < 10
    ensures IsDigit(c) && DigitValue(c) == d
  {
    ('0' as int + d) as char
  }

  function Pow10(n: nat): (p: nat)
    ensures p >= 1
  {
    if n == 0 then 1 else 10 * Pow10(n - 1)
  }

  /** The value of a string of decimal digits, most significant first. */
  function DigitsValue(s: string): (v: nat)
    requires AllDigits(s)
  {
    if |s| == 0 then 0 else 10 * DigitsValue(s[..|s| - 1]) + DigitValue(s[|s| - 1])
  }

  /** Canonical decimal rendering of a natural number (no sign, no
      separators); it reads back to the same number. */
  function ShowNat(n: nat): (s: string)
    ensures |s| > 0 && AllDigits(s)
    ensures DigitsValue(s) == n
  {
    if n < 10 then [DigitChar(n)]
    else
      var s := ShowNat(n / 10) + [DigitChar(n % 10)];
      assert s[..|s| - 1] == ShowNat(n / 10);
      s
  }

  /** Canonical decimal rendering of an integer, with a leading '-' when negative. */
  function ShowInt(n: int): (s: string)
    ensures |s| > 0
  {
    if n < 0 then "-" + ShowNat(-n) else ShowNat(n)
  }

  /** Python's `int(text)` on integer text: an optional sign followed by at
      least one decimal digit. Anything else (a separator, a decimal point,
      an empty string) is rejected with `None`. */
  function ParseInt(s: string): (r: Option<int>)
    ensures |s| > 0 && AllDigits(s) ==> r == Some(DigitsValue(s))
    ensures r.Some? ==> |s| > 0 && (forall i :: 0 < i < |s| ==> IsDigit(s[i]))
    ensures r.Some? && !IsDigit(s[0]) ==> |s| > 1 && (s[0] == '-' || s[0] == '+')
    ensures |s| > 1 && (s[0] == '-' || s[0] == '+') && AllDigits(s[1..]) ==>
      r == Some(if s[0] == '-' then -(DigitsValue(s[1..]) as int) else DigitsValue(s[1..]))
  {
    if |s| > 0 && (s[0] == '-' || s[0] == '+') then
      var body := s[1..];
      if |body| > 0 && AllDigits(body) then
        var v: int := DigitsValue(body);
        Some(if s[0] == '-' then -v else v)
      else None
    else if |s| > 0 && AllDigits(s) then Some(DigitsValue(s))
    else None
  }

  predicate NotComma(c: char)
  {
    c != ','
  }

  /** `str.replace(",", "")`: every thousands separator removed, all other
      characters kept in order. */
  function StripCommas(s: string): (r: string)
    ensures ',' !in r
    ensures ',' !in s ==> r == s
  {
    StripLeavesCleanText(s);
    Seqs.Filter(s, NotComma)
  }

  /** Stripping keeps every occurrence of every character other than the
      separator, and drops every separator. */
  lemma StripKeepsOtherCharacters(s: string)
    ensures multiset(StripCommas(s)) == multiset(s)[',' := 0]
  {
    Seqs.FilterCount(s, NotComma);
  }

  /** Stripping works piece by piece, so the kept characters stay in
      their order. */
  lemma StripAppend(a: string, b: string)
    ensures StripCommas(a + b) == StripCommas(a) + StripCommas(b)
  {
    Seqs.FilterAppend(a, b, NotComma);
  }

  lemma StripLeavesCleanText(s: string)
    ensures ',' !in s ==> Seqs.Filter(s, NotComma) == s
  {
    if ',' !in s {
      Seqs.FilterAllPass(s, NotComma);
    }
  }

  /** Removing separators from `hi + "," + lo`, where `lo` has none. */
  lemma StripJoinedGroup(hi: string, lo: string)
    requires ',' !in lo
    ensures StripCommas(hi + "," + lo) == StripCommas(hi) + lo
  {
    assert "," == [','];
    forall i | 0 <= i < |lo| ensures NotComma(lo[i]) {
      assert lo[i] in lo;
    }
    Seqs.FilterJoin(hi, ',', lo, NotComma);
  }

  /** A population cell: separators stripped, then parsed as a number. */
  function ParsePopulation(s: string): (r: Option<int>)
    ensures ',' !in s ==> r == ParseInt(s)
  {
    ParseInt(StripCommas(s))
  }

  /** A cell that parses holds at least one digit. */
  lemma ParsedCellHasDigit(s: string)
    requires ParsePopulation(s).Some?
    ensures exists i :: 0 <= i < |s| && IsDigit(s[i])
  {
    var t := StripCommas(s);
    assert IsDigit(t[|t| - 1]);
    assert t[|t| - 1] in t;
    StripKeepsOtherCharacters(s);
    assert t[|t| - 1] in s;
  }

  /** Three digits, zero-padded: one thousands group. */
  function Pad3(k: nat): (s: string)
    requires k < 1000
    ensures |s| == 3 && AllDigits(s)
    ensures DigitsValue(s) == k
  {
    ThreeDigits(k);
    var a, b, c := k / 100, k / 10 % 10, k % 10;
    var s := [DigitChar(a), DigitChar(b), DigitChar(c)];
    assert s[..2] == [s[0], s[1]];
    assert s[..2][..1] == [s[0]];
    assert DigitsValue([s[0]]) == a;
    assert DigitsValue(s[..2]) == 10 * a + b;
    s
  }

  /** The hundreds, tens and units digits of a number below 1000. */
  lemma ThreeDigits(k: nat)
    requires k < 1000
    ensures k / 100 < 10 && k / 10 % 10 < 10 && k % 10 < 10
    ensures k == 10 * (10 * (k / 100) + k / 10 % 10) + k % 10
  {
  }

  /** A natural number written with ',' between groups of three digits,
      as the census table writes populations ("1,234,567"). */
  function GroupThousands(n: nat): (s: string)
    ensures |s| > 0
  {
    if n < 1000 then ShowNat(n) else GroupThousands(n / 1000) + "," + Pad3(n % 1000)
  }

  lemma DigitsHaveNoComma(s: string)
    requires AllDigits(s)
    ensures ',' !in s
  {
    forall i | 0 <= i < |s| ensures s[i] != ',' {
      assert IsDigit(s[i]);
    }
  }

  /** Appending a digit multiplies the value so far by ten. */
  lemma ShiftDigit(v: int, p: int, w: int, d: int)
    ensures 10 * (v * p + w) + d == v * (10 * p) + (10 * w + d)
  {
  }

  lemma {:induction false} DigitsValueAppend(a: string, b: string)
    requires AllDigits(a) && AllDigits(b)
    ensures AllDigits(a + b)
    ensures DigitsValue(a + b) == DigitsValue(a) * Pow10(|b|) + DigitsValue(b)
    decreases |b|
  {
    assert AllDigits(a + b) by {
      forall i | 0 <= i < |a + b| ensures IsDigit((a + b)[i]) {
        if i < |a| { assert (a + b)[i] == a[i]; } else { assert (a + b)[i] == b[i - |a|]; }
      }
    }
    if |b| == 0 {
      assert a + b == a;
    } else {
      var b' := b[..|b| - 1];
      assert (a + b)[..|a + b| - 1] == a + b';
      assert AllDigits(b');
      DigitsValueAppend(a, b');
      var d := DigitValue(b[|b| - 1]);
      assert (a + b)[|a + b| - 1] == b[|b| - 1];
      assert DigitsValue(a + b) == 10 * DigitsValue(a + b') + d;
      assert DigitsValue(b) == 10 * DigitsValue(b') + d;
      assert Pow10(|b|) == 10 * Pow10(|b'|);
      ShiftDigit(DigitsValue(a), Pow10(|b'|), DigitsValue(b'), d);
    }
  }

  /** Stripping the separators from a grouped rendering leaves exactly the
      canonical digits of the number. */
  lemma {:induction false} StripGroupThousands(n: nat)
    ensures AllDigits(StripCommas(GroupThousands(n)))
    ensures |StripCommas(GroupThousands(n))| > 0
    ensures DigitsValue(StripCommas(GroupThousands(n))) == n
    decreases n
  {
    if n < 1000 {
      DigitsHaveNoComma(ShowNat(n));
    } else {
      var hi := GroupThousands(n / 1000);
      var lo := Pad3(n % 1000);
      StripGroupThousands(n / 1000);
      DigitsHaveNoComma(lo);
      StripJoinedGroup(hi, lo);
      DigitsValueAppend(StripCommas(hi), lo);
      assert Pow10(3) == 1000;
    }
  }

  /** Round trip: a population written with thousands separators parses
      back to the number it was written from. */
  lemma ParseGroupedPopulation(n: nat)
    ensures ParsePopulation(GroupThousands(n)) == Some(n)
  {
    StripGroupThousands(n);
  }

  /** Round trip of the canonical integer rendering through `int(...)`. */
  lemma ParseShowInt(n: int)
    ensures ParseInt(ShowInt(n)) == Some(n)
  {
    if n < 0 {
      assert ShowInt(n)[1..] == ShowNat(-n);
    }
  }

  /** "1,200" is read as 1200. */
  lemma ParseCommaPopulationExample()
    ensures ParsePopulation("1,200") == Some(1200)
  {
    var g := GroupThousands(1200);
    assert g == "1,200" by {
      assert ShowNat(1) == "1";
      assert Pad3(200) == "200";
    }
    ParseGroupedPopulation(1200);
    assert ParsePopulation(g) == Some(1200);
  }

  /** A separated cell with a stray letter after the separator ("1,2O0")
      is rejected, although stripping removed the separator. The letter is
      one no float literal that starts with a digit can hold: any but the
      exponent mark 'e' / 'E'. */
  lemma ParseRejectsStrayCharacter(hi: string, lo: string, k: nat)
    requires |hi| > 0 && AllDigits(hi)
    requires ',' !in lo
    requires k < |lo| && ('a' <= lo[k] <= 'z' || 'A' <= lo[k] <= 'Z') && lo[k] != 'e' && lo[k] != 'E'
    ensures ParsePopulation(hi + "," + lo) == None
  {
    DigitsHaveNoComma(hi);
    StripJoinedGroup(hi, lo);
    assert (hi + lo)[|hi| + k] == lo[k];
    ParseIntRejects(hi + lo, |hi| + k);
  }

  /** Text starting with a digit and holding a non-digit is not an integer. */
  lemma ParseIntRejects(t: string, k: nat)
    requires |t| > 0 && IsDigit(t[0])
    requires k < |t| && !IsDigit(t[k])
    ensures ParseInt(t) == None
  {
  }

  /** A cell made only of separators is empty once stripped, and is rejected. */
  lemma ParseSeparatorsOnly(s: string)
    requires forall i :: 0 <= i < |s| ==> s[i] == ','
    ensures ParsePopulation(s) == None
  {
    var t := StripCommas(s);
    StripKeepsOtherCharacters(s);
    forall c ensures multiset(t)[c] == 0 {
      if c != ',' {
        assert c !in s;
      }
    }
    assert multiset(t) == multiset{};
  }
}
