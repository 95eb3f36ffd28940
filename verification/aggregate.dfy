/**
 * The aggregations over indicator tables: the share of respondents selecting
 * each option (`df.mean() * 100`), the "loved" table (`worked & want`) and the
 * loved ratio (`loved.sum() * 100 / worked.sum()`), each sorted descending.
 * Percentages are exact rationals; `None` stands for pandas' NaN (a 0/0).
 */
module Aggregate {
  import opened Wrappers
  import opened Seqs
  import opened Indicators

  /** Number of set cells of a column (`column.sum()`). */
  function Count(column: seq<bool>): (n: nat)
    ensures n <= |column|
    ensures n == 0 <==> true !in column
  {
    if |column| == 0 then 0
    else
      var init := column[..|column| - 1];
      assert column == init + [column[|column| - 1]];
      Count(init) + (if column[|column| - 1] then 1 else 0)
  }

  /** A column whose set cells are among another's has no more of them. */
  lemma {:induction false} CountMonotone(a: seq<bool>, b: seq<bool>)
    requires |a| == |b|
    requires forall r :: 0 <= r < |a| ==> a[r] ==> b[r]
    ensures Count(a) <= Count(b)
  {
    if |a| > 0 {
      CountMonotone(a[..|a| - 1], b[..|b| - 1]);
    }
  }

  /**
   * `num * 100 / den` as an exact ratio; `0/0` gives NaN (`None`). A positive
   * count over zero (pandas' `inf`) is also `None`; no caller produces one.
   */
  function Percent(num: nat, den: nat): (p: Option<real>)
    ensures p.None? <==> den == 0
    ensures p.Some? && num <= den ==> 0.0 <= p.value <= 100.0
    ensures p.Some? && num > 0 ==> p.value > 0.0
  {
    if den == 0 then None
    else
      var x := (num as real) * 100.0;
      assert x <= (den as real) * 100.0 ==> x / (den as real) <= 100.0;
      Some(x / (den as real))
  }

  /** One line of a result Series: an option and its percentage. */
  datatype Entry = Entry(option: string, percent: Option<real>)

  /** Order of `sort_values(ascending=False)`: larger first, NaN last. */
  predicate AtLeast(a: Option<real>, b: Option<real>) {
    match a
    case None => b.None?
    case Some(x) => b.None? || x >= b.value
  }

  /** Entries in non-increasing order of percentage. */
  predicate SortedDesc(s: seq<Entry>) {
    forall i, j :: 0 <= i < j < |s| ==> AtLeast(s[i].percent, s[j].percent)
  }

  /** Inserts `e` into a descending sequence. */
  function Insert(e: Entry, s: seq<Entry>): (r: seq<Entry>)
    requires SortedDesc(s)
    ensures SortedDesc(r)
    ensures multiset(r) == multiset(s) + multiset{e}
  {
    if |s| == 0 then [e]
    else if AtLeast(e.percent, s[0].percent) then
      InsertFront(e, s);
      [e] + s
    else
      var rest := Insert(e, s[1..]);
      InsertBehind(e, s, rest);
      [s[0]] + rest
  }

  /** An entry at least as large as the head of a descending sequence may go first. */
  lemma InsertFront(e: Entry, s: seq<Entry>)
    requires SortedDesc(s) && |s| > 0
    requires AtLeast(e.percent, s[0].percent)
    ensures SortedDesc([e] + s)
  {
    var r := [e] + s;
    forall i, j | 0 <= i < j < |r|
      ensures AtLeast(r[i].percent, r[j].percent)
    {
      if i == 0 && j > 1 {
        assert r[j] == s[j - 1];
      }
    }
  }

  /** An entry smaller than the head goes behind it, among the rest. */
  lemma InsertBehind(e: Entry, s: seq<Entry>, rest: seq<Entry>)
    requires SortedDesc(s) && |s| > 0
    requires !AtLeast(e.percent, s[0].percent)
    requires SortedDesc(rest) && multiset(rest) == multiset(s[1..]) + multiset{e}
    ensures SortedDesc([s[0]] + rest)
    ensures multiset([s[0]] + rest) == multiset(s) + multiset{e}
  {
    assert s == [s[0]] + s[1..];
    forall x | x in rest
      ensures AtLeast(s[0].percent, x.percent)
    {
      assert x in multiset(rest);
    }
  }

  /** `sort_values(ascending=False)`: a descending permutation of `s`. */
  function SortDesc(s: seq<Entry>): (r: seq<Entry>)
    ensures SortedDesc(r)
    ensures multiset(r) == multiset(s)
  {
    if |s| == 0 then []
    else
      assert s == [s[0]] + s[1..];
      Insert(s[0], SortDesc(s[1..]))
  }

  /** A permutation has the same length and the same members. */
  lemma PermutationMembers(r: seq<Entry>, s: seq<Entry>)
    requires multiset(r) == multiset(s)
    ensures |r| == |s|
    ensures forall x :: x in r <==> x in s
  {
    assert |r| == |multiset(r)| == |multiset(s)| == |s|;
    forall x
      ensures x in r <==> x in s
    {
      assert x in r <==> x in multiset(r);
      assert x in s <==> x in multiset(s);
    }
  }

  /** Each option of `t` with the percentage of rows, absent answers included, that select it. */
  function Rates(t: Table): (r: seq<Entry>)
    requires WellFormed(t)
  {
    seq(|t.options|, c requires 0 <= c < |t.options| =>
      Entry(t.options[c], Percent(Count(t.columns[c]), t.height)))
  }

  /**
   * `df.mean().sort_values(ascending=False) * 100`: the mean of a boolean column
   * divides by all rows, so rows whose answer was absent count in the denominator.
   */
  function UsagePercent(t: Table): (r: seq<Entry>)
    requires WellFormed(t)
    ensures SortedDesc(r)
    ensures |r| == |t.options|
    ensures forall c :: 0 <= c < |t.options| ==>
      Entry(t.options[c], Percent(Count(t.columns[c]), t.height)) in r
    ensures forall e :: e in r ==>
      exists c :: 0 <= c < |t.options| && e == Entry(t.options[c], Percent(Count(t.columns[c]), t.height))
    ensures t.height > 0 ==> forall e :: e in r ==>
      e.percent.Some? && 0.0 <= e.percent.value <= 100.0
  {
    var rates := Rates(t);
    var r := SortDesc(rates);
    PermutationMembers(r, rates);
    forall c | 0 <= c < |t.options|
      ensures Entry(t.options[c], Percent(Count(t.columns[c]), t.height)) in r
    {
      assert rates[c] in rates;
    }
    forall e | e in r
      ensures exists c :: 0 <= c < |t.options| && e == Entry(t.options[c], Percent(Count(t.columns[c]), t.height))
      ensures t.height > 0 ==> e.percent.Some? && 0.0 <= e.percent.value <= 100.0
    {
      var c :| 0 <= c < |rates| && rates[c] == e;
    }
    r
  }

  /** Column of `want` for `option`, all-false when `want` has no such column. */
  function WantColumn(want: Table, option: string): (column: seq<bool>)
    requires WellFormed(want)
    ensures |column| == want.height
  {
    if option in want.options then want.columns[IndexOf(want.options, option)]
    else Unmarked(want.height)
  }

  /**
   * `worked & want` restricted to the options of `worked`: a respondent loves an
   * option when they have worked with it and want to keep working with it.
   */
  function Loved(worked: Table, want: Table): (loved: Table)
    requires WellFormed(worked) && WellFormed(want)
    requires worked.height == want.height
    ensures WellFormed(loved)
    ensures loved.height == worked.height && loved.options == worked.options
    ensures forall c, r :: 0 <= c < |loved.options| && 0 <= r < loved.height ==>
      (loved.columns[c][r] <==>
        worked.columns[c][r] &&
        exists k :: 0 <= k < |want.options| && want.options[k] == worked.options[c] && want.columns[k][r])
  {
    var loved := Table(worked.height, worked.options, seq(|worked.options|, c requires 0 <= c < |worked.options| =>
      seq(worked.height, r requires 0 <= r < worked.height =>
        worked.columns[c][r] && WantColumn(want, worked.options[c])[r])));
    forall c, r | 0 <= c < |loved.options| && 0 <= r < loved.height
      ensures loved.columns[c][r] <==>
        worked.columns[c][r] &&
        exists k :: 0 <= k < |want.options| && want.options[k] == worked.options[c] && want.columns[k][r]
    {
      var o := worked.options[c];
      if o in want.options {
        var k0 := IndexOf(want.options, o);
        forall k | 0 <= k < |want.options| && want.options[k] == o
          ensures k == k0
        {
          IndexOfNoDup(want.options, k);
        }
      }
    }
    loved
  }

  /** A respondent counted as loving an option has worked with it, so no column of the loved table outnumbers its worked column. */
  lemma LovedCountBound(worked: Table, want: Table, c: nat)
    requires WellFormed(worked) && WellFormed(want)
    requires worked.height == want.height
    requires c < |worked.options|
    ensures Count(Loved(worked, want).columns[c]) <= Count(worked.columns[c])
  {
    CountMonotone(Loved(worked, want).columns[c], worked.columns[c]);
  }

  /** Each option of `worked` with `loved.sum() * 100 / worked.sum()`. */
  function LovedRates(worked: Table, want: Table): seq<Entry>
    requires WellFormed(worked) && WellFormed(want)
    requires worked.height == want.height
  {
    var loved := Loved(worked, want);
    seq(|worked.options|, c requires 0 <= c < |worked.options| =>
      Entry(worked.options[c], Percent(Count(loved.columns[c]), Count(worked.columns[c]))))
  }

  /** Every defined loved ratio is a percentage. */
  lemma LovedRatesBounded(worked: Table, want: Table)
    requires WellFormed(worked) && WellFormed(want)
    requires worked.height == want.height
    ensures forall e :: e in LovedRates(worked, want) && e.percent.Some? ==> 0.0 <= e.percent.value <= 100.0
  {
    var rates := LovedRates(worked, want);
    forall c | 0 <= c < |rates|
      ensures rates[c].percent.Some? ==> 0.0 <= rates[c].percent.value <= 100.0
    {
      LovedCountBound(worked, want, c);
    }
  }

  /** A loved ratio is NaN exactly for an option nobody has worked with. */
  lemma LovedRatesUndefined(worked: Table, want: Table)
    requires WellFormed(worked) && WellFormed(want)
    requires worked.height == want.height
    ensures forall c :: 0 <= c < |worked.options| ==>
      (Entry(worked.options[c], None) in LovedRates(worked, want) <==> true !in worked.columns[c])
  {
    var rates := LovedRates(worked, want);
    forall c | 0 <= c < |worked.options|
      ensures Entry(worked.options[c], None) in rates <==> true !in worked.columns[c]
    {
      assert rates[c] in rates;
      if Entry(worked.options[c], None) in rates {
        var k :| 0 <= k < |rates| && rates[k] == Entry(worked.options[c], None);
        IndexOfNoDup(worked.options, c);
        IndexOfNoDup(worked.options, k);
      }
    }
  }

  /** A loved percentage over a worked table whose every option is used by somebody is never NaN. */
  lemma LovedPercentDefined(worked: Table, want: Table)
    requires WellFormed(worked) && WellFormed(want)
    requires worked.height == want.height
    requires Inhabited(worked)
    ensures forall e :: e in LovedPercent(worked, want) ==> e.percent.Some? && 0.0 <= e.percent.value <= 100.0
  {
    var r := LovedPercent(worked, want);
    forall e | e in r
      ensures e.percent.Some?
    {
      var c := IndexOf(worked.options, e.option);
    }
  }

  /**
   * `(loved.sum() * 100 / worked.sum()).sort_values(ascending=False)`, over the
   * options of `worked`: a percentage in [0, 100] for every option somebody has
   * worked with, NaN only for an option nobody has.
   */
  function LovedPercent(worked: Table, want: Table): (r: seq<Entry>)
    requires WellFormed(worked) && WellFormed(want)
    requires worked.height == want.height
    ensures SortedDesc(r)
    ensures |r| == |worked.options|
    ensures multiset(r) == multiset(LovedRates(worked, want))
    ensures forall e :: e in r ==> e.option in worked.options
    ensures forall e :: e in r && e.percent.Some? ==> 0.0 <= e.percent.value <= 100.0
    ensures forall c :: 0 <= c < |worked.options| ==>
      (Entry(worked.options[c], None) in r <==> true !in worked.columns[c])
  {
    var rates := LovedRates(worked, want);
    var r := SortDesc(rates);
    PermutationMembers(r, rates);
    LovedRatesBounded(worked, want);
    LovedRatesUndefined(worked, want);
    r
  }
}
