/** Date strings of the form "YYYY-MM-DD" and the month keys "YYYY/MM" derived from them. */
module Dates {

  /** Python's `s[lo:hi]` for non-negative bounds: bounds past the end are clamped, never an error. */
  function Slice(s: string, lo: nat, hi: nat): (r: string)
    requires lo <= hi
    ensures |r| == (if hi <= |s| then hi - lo else if lo <= |s| then |s| - lo else 0)
    ensures forall k :: 0 <= k < |r| ==> r[k] == s[lo + k]
  {
    var a := if lo <= |s| then lo else |s|;
    var b := if hi <= |s| then hi else |s|;
    s[a..b]
  }

  /** `date[0:4]` */
  function Year(date: string): string { Slice(date, 0, 4) }

  /** `date[5:7]` */
  function Month(date: string): string { Slice(date, 5, 7) }

  /** `date[8:10]` */
  function Day(date: string): string { Slice(date, 8, 10) }

  /** The dictionary key `year + '/' + month` under which a month's average is stored. */
  function MonthKey(date: string): string { Year(date) + "/" + Month(date) }

  /**
   * The month test of the aggregation loop as intended: `date` has the remembered month and the
   * remembered year.
   */
  predicate InMonth(date: string, year: string, month: string)
  {
    Month(date) == month && Year(date) == year
  }

  /** The intended "same month" test: month and year of the current record equal those of the previous one. */
  predicate SameMonth(previous: string, current: string)
  {
    Month(current) == Month(previous) && Year(current) == Year(previous)
  }

  /** Two dates are in the same month exactly when they produce the same dictionary key. */
  lemma SameMonthIffSameKey(a: string, b: string)
    ensures SameMonth(a, b) <==> MonthKey(a) == MonthKey(b)
  {
    if MonthKey(a) == MonthKey(b) {
      var ya, yb := Year(a), Year(b);
      assert |ya| == |yb|;
      assert MonthKey(a)[..|ya|] == ya && MonthKey(b)[..|yb|] == yb;
      assert MonthKey(a)[|ya| + 1..] == Month(a) && MonthKey(b)[|yb| + 1..] == Month(b);
    }
  }

  /** The test on mining.py line 61 as written: the current record's DAY is compared with the previous year. */
  predicate AsWrittenSameMonth(lastEntryYear: string, lastEntryMonth: string, current: string)
  {
    Month(current) == lastEntryMonth && Day(current) == lastEntryYear
  }

  /** As written, a record never continues the month of a previous record whose date has a full year. */
  lemma AsWrittenNeverContinues(previous: string, current: string)
    requires |previous| >= 4
    ensures !AsWrittenSameMonth(Year(previous), Month(previous), current)
  {
    assert |Day(current)| <= 2 < |Year(previous)|;
  }

  /** Two trading days of November 2004: the intended test keeps them in one month, the test as written splits them. */
  lemma AsWrittenSplitsNovember2004()
    ensures SameMonth("2004-11-01", "2004-11-02")
    ensures !AsWrittenSameMonth(Year("2004-11-01"), Month("2004-11-01"), "2004-11-02")
  {
    assert Year("2004-11-01") == "2004" == Year("2004-11-02");
    assert Month("2004-11-01") == "11" == Month("2004-11-02");
    assert Day("2004-11-02") == "02";
  }
}
