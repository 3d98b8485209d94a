/** `mining.py`: the module-level dictionary of monthly averages and the operations that fill and rank it. */
module Mining {
  import opened Dates
  import opened MonthDict
  import opened Aggregation
  import opened Ranking

  /** The module's state: `monthly_averages`, created empty at import and never cleared afterwards. */
  class StockMiner {
    var monthlyAverages: Dict

    ghost predicate Valid()
      reads this
    {
      monthlyAverages.Valid()
    }

    /** Importing the module: `monthly_averages = {}`. */
    constructor ()
      ensures Valid() && monthlyAverages == Empty()
    {
      monthlyAverages := Empty();
    }

    /**
     * `read_stock_data`: one pass over the date-ordered daily entries. Each month change closes out
     * the run of the month that just ended and stores its volume-weighted average under "YYYY/MM";
     * the run in progress when the entries run out is not stored. Entries of earlier calls stay.
     */
    method ReadStockData(stockData: seq<DailyRecord>) returns (averages: map<string, real>)
      requires Valid()
      requires |stockData| > 0
      modifies this
      ensures Valid()
      ensures monthlyAverages == PutAll(old(monthlyAverages), Flushes(stockData))
      ensures averages == monthlyAverages.values
    {
      ghost var start := monthlyAverages;
      var numerator: real := 0.0;
      var denominator: int := 0;
      var lastEntryMonth := Month(stockData[0].date);
      var lastEntryYear := Year(stockData[0].date);
      var i := 0;
      while i < |stockData|
        invariant i <= |stockData|
        invariant Progress(monthlyAverages, numerator, denominator, lastEntryYear, lastEntryMonth) ==
                  Scan(stockData, i, start)
      {
        var dailyEntry := stockData[i];
        if InMonth(dailyEntry.date, lastEntryYear, lastEntryMonth) {
          numerator := numerator + Weighted(dailyEntry);
          denominator := denominator + dailyEntry.volume;
        } else {
          var monthlyAverage: real;
          if denominator != 0 {
            monthlyAverage := numerator / (denominator as real);
          } else {
            monthlyAverage := 0.0;
          }
          var dateString := lastEntryYear + "/" + lastEntryMonth;
          monthlyAverages := monthlyAverages.Put(dateString, monthlyAverage);
          numerator := Weighted(dailyEntry);
          denominator := dailyEntry.volume;
        }
        lastEntryMonth := Month(dailyEntry.date);
        lastEntryYear := Year(dailyEntry.date);
        i := i + 1;
      }
      ScanAll(stockData, start);
      averages := monthlyAverages.values;
    }

    /**
     * `six_best_months`: up to six (month, average) items of the dictionary, highest average first;
     * no month left out has a higher average than a month listed, and months of equal average keep
     * the dictionary's order.
     */
    function SixBestMonths(): (best: seq<Entry>)
      reads this
      requires Valid()
      ensures |best| == Min(6, |monthlyAverages.values|)
      ensures multiset(best) <= multiset(monthlyAverages.Items())
      ensures forall e :: e in best ==> e.0 in monthlyAverages.values && monthlyAverages.values[e.0] == e.1
      ensures forall i, j :: 0 <= i < j < |best| ==> best[i].0 != best[j].0
      ensures forall i, j :: 0 <= i < j < |best| ==> best[i].1 >= best[j].1
      ensures forall v :: OfRank(best, v) <= OfRank(monthlyAverages.Items(), v)
      ensures forall e, k :: e in best && k in monthlyAverages.values && (k, monthlyAverages.values[k]) !in best ==>
        monthlyAverages.values[k] <= e.1
    {
      TopMonths(monthlyAverages, true)
    }

    /**
     * `six_worst_months`: up to six (month, average) items of the dictionary, lowest average first;
     * no month left out has a lower average than a month listed, and months of equal average keep
     * the dictionary's order.
     */
    function SixWorstMonths(): (worst: seq<Entry>)
      reads this
      requires Valid()
      ensures |worst| == Min(6, |monthlyAverages.values|)
      ensures multiset(worst) <= multiset(monthlyAverages.Items())
      ensures forall e :: e in worst ==> e.0 in monthlyAverages.values && monthlyAverages.values[e.0] == e.1
      ensures forall i, j :: 0 <= i < j < |worst| ==> worst[i].0 != worst[j].0
      ensures forall i, j :: 0 <= i < j < |worst| ==> worst[i].1 <= worst[j].1
      ensures forall v :: OfRank(worst, v) <= OfRank(monthlyAverages.Items(), v)
      ensures forall e, k :: e in worst && k in monthlyAverages.values && (k, monthlyAverages.values[k]) !in worst ==>
        monthlyAverages.values[k] >= e.1
    {
      TopMonths(monthlyAverages, false)
    }
  }

  /**
   * `sorted(d.items(), key=average, reverse=descending)[0:6]`: up to six items of `d`, each month at
   * most once and with its own average, in rank order (months of equal average in the dictionary's
   * order), and no month left out ranks higher.
   */
  function TopMonths(d: Dict, descending: bool): (top: seq<Entry>)
    requires d.Valid()
    ensures |top| == Min(6, |d.values|)
    ensures multiset(top) <= multiset(d.Items())
    ensures forall e :: e in top ==> e.0 in d.values && d.values[e.0] == e.1
    ensures forall i, j :: 0 <= i < j < |top| ==> top[i].0 != top[j].0
    ensures Sorted(top, descending)
    ensures forall v :: OfRank(top, v) <= OfRank(d.Items(), v)
    ensures forall e, k :: e in top && k in d.values && (k, d.values[k]) !in top ==>
      if descending then d.values[k] <= e.1 else d.values[k] >= e.1
  {
    var top := Top(d.Items(), 6, descending);
    TopOfItems(d, top, descending);
    top
  }

  /**
   * What a top-n selection of a dictionary's items says about the dictionary itself: it lists each
   * month at most once, with its own average, and leaves out nothing ranking higher.
   */
  lemma TopOfItems(d: Dict, top: seq<Entry>, descending: bool)
    requires d.Valid()
    requires multiset(top) <= multiset(d.Items())
    requires forall x, y :: x in top && y in multiset(d.Items()) - multiset(top) ==> InOrder(x, y, descending)
    ensures forall e :: e in top ==> e.0 in d.values && d.values[e.0] == e.1
    ensures forall i, j :: 0 <= i < j < |top| ==> top[i].0 != top[j].0
    ensures forall e, k :: e in top && k in d.values && (k, d.values[k]) !in top ==>
      if descending then d.values[k] <= e.1 else d.values[k] >= e.1
  {
    var items := d.Items();
    forall e | e in top ensures e.0 in d.values && d.values[e.0] == e.1 {
      assert e in multiset(top);
      assert e in multiset(items);
    }
    forall e, k | e in top && k in d.values && (k, d.values[k]) !in top
      ensures if descending then d.values[k] <= e.1 else d.values[k] >= e.1
    {
      var y := (k, d.values[k]);
      assert y in items;
      assert y in multiset(items) - multiset(top);
      assert InOrder(e, y, descending);
    }
    assert Distinct(items);
    SubmultisetDistinct(top, items);
    forall i, j | 0 <= i < j < |top| ensures top[i].0 != top[j].0 {
      assert top[i] in top && top[j] in top;
    }
  }
}
