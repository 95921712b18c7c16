/** Per-year dry-day statistics of one region's daily records: the records
    dated after 1 January and up to 31 December of the year, how many of
    them are dry, and the longest dry spell among them. */
module Yearly {
  import opened Wrappers
  import opened DrySpell

  /** A calendar date as (year, month, day), ordered lexicographically. */
  datatype Date = Date(year: int, month: int, day: int)

  predicate Before(a: Date, b: Date) {
    || a.year < b.year
    || (a.year == b.year && a.month < b.month)
    || (a.year == b.year && a.month == b.month && a.day < b.day)
  }

  predicate AtOrBefore(a: Date, b: Date) {
    a == b || Before(a, b)
  }

  /** The program's window for `year`: strictly after 1 January and on or
      before 31 December. */
  predicate InWindow(d: Date, year: int) {
    Before(Date(year, 1, 1), d) && AtOrBefore(d, Date(year, 12, 31))
  }

  /** One row of a region's daily table; `None` is a missing value. */
  datatype Record = Record(date: Date, precip: Option<real>)

  /** The records that fall in the window of `year`, in their original order. */
  function Window(recs: seq<Record>, year: int): (w: seq<Record>)
    ensures |w| <= |recs|
    ensures forall x :: x in w <==> x in recs && InWindow(x.date, year)
  {
    if |recs| == 0 then []
    else
      var rest := Window(recs[1..], year);
      assert recs == [recs[0]] + recs[1..];
      if InWindow(recs[0].date, year) then [recs[0]] + rest else rest
  }

  /** `Window` is a filter: it keeps a single record exactly when it falls in
      the window, and distributes over concatenation, so every record in the
      window is kept once and in its original order, like the program's
      boolean-mask selection. */
  lemma WindowSingleton(x: Record, year: int)
    ensures Window([x], year) == if InWindow(x.date, year) then [x] else []
  {
  }

  lemma {:induction false} WindowAppend(a: seq<Record>, b: seq<Record>, year: int)
    ensures Window(a + b, year) == Window(a, year) + Window(b, year)
  {
    if |a| > 0 {
      var ab := a + b;
      assert ab[0] == a[0];
      assert ab[1..] == a[1..] + b;
      WindowAppend(a[1..], b, year);
    } else {
      assert a + b == b;
    }
  }

  /** 1 January of a year is never in that year's window, while 31 December is. */
  lemma WindowExcludesJanuaryFirst(recs: seq<Record>, year: int, p: Option<real>)
    ensures Record(Date(year, 1, 1), p) !in Window(recs, year)
    ensures Record(Date(year, 12, 31), p) in recs ==> Record(Date(year, 12, 31), p) in Window(recs, year)
  {
  }

  /** The wetness threshold, in the dataset's units. */
  const DryThreshold: real := 0.1

  /** `precipitation < .1`; a missing value compares false, so it is not dry. */
  predicate IsDry(p: Option<real>) {
    p.Some? && p.value < DryThreshold
  }

  /** The dry flag of every record, in order. */
  function DryFlags(recs: seq<Record>): (f: seq<bool>)
    ensures |f| == |recs|
    ensures forall i :: 0 <= i < |recs| ==> (f[i] <==> IsDry(recs[i].precip))
  {
    if |recs| == 0 then []
    else DryFlags(recs[..|recs| - 1]) + [IsDry(recs[|recs| - 1].precip)]
  }

  /** The positions of the dry records. */
  function DryIndices(recs: seq<Record>): set<int>
  {
    set i | 0 <= i < |recs| && IsDry(recs[i].precip)
  }

  lemma DryIndicesSnoc(recs: seq<Record>)
    requires |recs| > 0
    ensures var last := |recs| - 1;
      |DryIndices(recs)| == |DryIndices(recs[..last])| + (if IsDry(recs[last].precip) then 1 else 0)
  {
    var last := |recs| - 1;
    var p := recs[..last];
    var a, b := DryIndices(recs), DryIndices(p);
    var extra: set<int> := if IsDry(recs[last].precip) then {last} else {};
    forall i | i in a
      ensures i in b + extra
    {
      if i < last {
        assert p[i] == recs[i];
      }
    }
    forall i | i in b + extra
      ensures i in a
    {
      if i < last {
        assert p[i] == recs[i];
      }
    }
    assert a == b + extra;
    assert b !! extra;
  }

  /** The program's count, the sum of the dry flags, is the number of dry
      records. */
  lemma {:induction false} CountTrueIsDryRecords(recs: seq<Record>)
    ensures CountTrue(DryFlags(recs)) == |DryIndices(recs)|
  {
    if |recs| > 0 {
      var p := recs[..|recs| - 1];
      var last := |recs| - 1;
      CountTrueIsDryRecords(p);
      assert DryFlags(recs)[..last] == DryFlags(p);
      DryIndicesSnoc(recs);
    }
  }

  /** The statistics of one year. */
  datatype YearStats = YearStats(year: int, dryDays: nat, drySpell: nat)

  /** One iteration of the program's year loop: the window, the sum of
      its dry flags, and `maxConsecutive` of the flags' 0/1 string. The
      count is the number of dry records in the window and the spell the
      longest run of consecutive dry records there. */
  function StatsForYear(recs: seq<Record>, year: int): (r: YearStats)
    ensures r.year == year
    ensures r.dryDays == |DryIndices(Window(recs, year))|
    ensures r.drySpell == LongestRun(DryFlags(Window(recs, year)))
  {
    var flags := DryFlags(Window(recs, year));
    CountTrueIsDryRecords(Window(recs, year));
    MaxConsecutiveIsLongestRun(flags);
    YearStats(year, CountTrue(flags), MaxConsecutive(Encode(flags)))
  }

  /** What an entry of the output row means for its year: the count is the
      number of dry records in the year's window and the spell the longest
      run of consecutive dry records there; the spell never exceeds the
      count, which never exceeds the window's size. */
  ghost predicate EntryMeans(recs: seq<Record>, year: int, s: YearStats) {
    && s.year == year
    && s.dryDays == |DryIndices(Window(recs, year))|
    && s.drySpell == LongestRun(DryFlags(Window(recs, year)))
    && s.drySpell <= s.dryDays <= |Window(recs, year)|
  }

  /** A year's statistics mean what EntryMeans says; in particular an empty
      window gives zero for both. */
  lemma StatsForYearMeaning(recs: seq<Record>, year: int)
    ensures EntryMeans(recs, year, StatsForYear(recs, year))
  {
    LongestRunBounds(DryFlags(Window(recs, year)));
  }

  /** The years of the output row, `range(1981, 2016)`. */
  const FirstYear: int := 1981
  const YearCount: nat := 35

  /** A row whose entry i is the year loop's result for year 1981 + i holds,
      in each entry, that year's dry-day count and longest spell. */
  lemma RowMeaning(recs: seq<Record>, r: seq<YearStats>)
    requires |r| == YearCount
    requires forall i :: 0 <= i < |r| ==> r[i] == StatsForYear(recs, FirstYear + i)
    ensures r[0].year == FirstYear && r[|r| - 1].year == 2015
    ensures forall i :: 0 <= i < |r| ==> EntryMeans(recs, FirstYear + i, r[i])
  {
    forall i | 0 <= i < |r|
      ensures EntryMeans(recs, FirstYear + i, r[i])
    {
      StatsForYearMeaning(recs, FirstYear + i);
    }
  }

  /** The program's output row for one region: 35 entries for the years 1981
      through 2015 in order; in each, the count is the number of dry records
      in that year's window and the spell the longest run of consecutive dry
      records there, with spell <= count <= window size. */
  function AggregateYears(recs: seq<Record>): (r: seq<YearStats>)
    ensures |r| == YearCount
    ensures r[0].year == FirstYear && r[|r| - 1].year == 2015
    ensures forall i :: 0 <= i < |r| ==> EntryMeans(recs, FirstYear + i, r[i])
  {
    var r := seq(YearCount, i => StatsForYear(recs, FirstYear + i));
    RowMeaning(recs, r);
    r
  }
}
