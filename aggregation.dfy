/** What `read_stock_data` computes: volume-weighted monthly averages over runs of same-month records. */
module Aggregation {
  import opened Dates
  import opened MonthDict

  /** One daily entry of the stock data: its "Date" string, `float(Close)` and `int(Volume)`. */
  datatype DailyRecord = DailyRecord(date: string, close: real, volume: int)

  /** A day's close × volume: its contribution to the numerator. */
  function Weighted(r: DailyRecord): real
  {
    r.close * (r.volume as real)
  }

  /** Σ close × volume over a run of records. */
  function Numerator(run: seq<DailyRecord>): real
  {
    if run == [] then 0.0 else Numerator(run[..|run| - 1]) + Weighted(run[|run| - 1])
  }

  /** Σ volume over a run of records. */
  function Denominator(run: seq<DailyRecord>): int
  {
    if run == [] then 0 else Denominator(run[..|run| - 1]) + run[|run| - 1].volume
  }

  /** The monthly average Σ(Vi × Ci) / Σ(Vi), or 0 when the total volume is 0. */
  function Average(run: seq<DailyRecord>): real
  {
    if Denominator(run) != 0 then Numerator(run) / (Denominator(run) as real) else 0.0
  }

  /** The average times the total volume gives back the weighted sum; a month without volume averages 0. */
  lemma AverageTimesVolume(run: seq<DailyRecord>)
    ensures Denominator(run) == 0 ==> Average(run) == 0.0
    ensures Denominator(run) != 0 ==> Average(run) * (Denominator(run) as real) == Numerator(run)
  {
  }

  /** Adding a record to a run adds its close × volume and its volume to the sums. */
  lemma SumsSnoc(run: seq<DailyRecord>, r: DailyRecord)
    ensures Numerator(run + [r]) == Numerator(run) + Weighted(r)
    ensures Denominator(run + [r]) == Denominator(run) + r.volume
  {
    assert (run + [r])[..|run|] == run;
  }

  /** A run of records whose volumes are all zero averages to exactly 0. */
  lemma {:induction false} ZeroVolumeRun(run: seq<DailyRecord>)
    requires forall i :: 0 <= i < |run| ==> run[i].volume == 0
    ensures Denominator(run) == 0 && Average(run) == 0.0
  {
    if run != [] {
      ZeroVolumeRun(run[..|run| - 1]);
    }
  }

  /** Lower and upper bounds on every close bound the weighted sums. */
  lemma {:induction false} WeightedSumBounds(run: seq<DailyRecord>, lo: real, hi: real)
    requires forall i :: 0 <= i < |run| ==> lo <= run[i].close <= hi && run[i].volume >= 0
    ensures Denominator(run) >= 0
    ensures lo * (Denominator(run) as real) <= Numerator(run) <= hi * (Denominator(run) as real)
  {
    if run != [] {
      var last := run[|run| - 1];
      WeightedSumBounds(run[..|run| - 1], lo, hi);
      var v := last.volume as real;
      assert lo * v <= last.close * v <= hi * v by {
        assert (last.close - lo) * v >= 0.0;
        assert (hi - last.close) * v >= 0.0;
      }
    }
  }

  /** With non-negative volumes, a monthly average lies between the lowest and the highest close of its month. */
  lemma AverageWithinCloses(run: seq<DailyRecord>, lo: real, hi: real)
    requires forall i :: 0 <= i < |run| ==> lo <= run[i].close <= hi && run[i].volume >= 0
    requires Denominator(run) != 0
    ensures lo <= Average(run) <= hi
  {
    WeightedSumBounds(run, lo, hi);
    QuotientBounds(Numerator(run), Denominator(run) as real, lo, hi);
  }

  /** With d > 0, bounds lo * d <= n <= hi * d carry over to the quotient n / d. */
  lemma QuotientBounds(n: real, d: real, lo: real, hi: real)
    requires d > 0.0 && lo * d <= n <= hi * d
    ensures lo <= n / d <= hi
  {
  }

  /** A single trading day with non-zero volume averages to its own close. */
  lemma SingleDayAverage(r: DailyRecord)
    requires r.volume != 0
    ensures Average([r]) == r.close
  {
    assert [r][..0] == [];
    var v := r.volume as real;
    assert Numerator([r]) == r.close * v && Denominator([r]) == r.volume;
    var a := Average([r]);
    AverageTimesVolume([r]);
    assert a * v == r.close * v;
    assert (a - r.close) * v == 0.0;
  }

  /**
   * The maximal runs of consecutive records in the same month, in input order. A record continues
   * the run of the record just before it exactly when `SameMonth` holds between their dates.
   */
  function Runs(records: seq<DailyRecord>): (runs: seq<seq<DailyRecord>>)
    ensures |runs| <= |records|
    ensures (runs == []) == (records == [])
    ensures forall i :: 0 <= i < |runs| ==> runs[i] != []
    ensures records != [] ==> Last(Last(runs)) == Last(records)
    decreases |records|
  {
    if records == [] then []
    else
      var init := records[..|records| - 1];
      var r := Last(records);
      var runs := Runs(init);
      if init != [] && SameMonth(Last(init).date, r.date) then
        runs[..|runs| - 1] + [Last(runs) + [r]]
      else
        runs + [[r]]
  }

  function Last<T>(s: seq<T>): T
    requires s != []
  {
    s[|s| - 1]
  }

  /** The run the accumulators are summing: that of the most recent record. */
  function CurrentRun(records: seq<DailyRecord>): (run: seq<DailyRecord>)
    requires records != []
  {
    Last(Runs(records))
  }

  /** The dictionary write that closes out a run: its month key and its average. */
  function Closed(run: seq<DailyRecord>): Entry
    requires run != []
  {
    (MonthKey(Last(run).date), Average(run))
  }

  /** The writes into `monthly_averages`, in order: one per run except the last, which is never closed out. */
  function Flushes(records: seq<DailyRecord>): (writes: seq<Entry>)
    ensures |writes| == if records == [] then 0 else |Runs(records)| - 1
  {
    var runs := Runs(records);
    if runs == [] then []
    else seq(|runs| - 1, i requires 0 <= i < |runs| - 1 => Closed(runs[i]))
  }

  /** Concatenation of a sequence of runs. */
  function Flatten(runs: seq<seq<DailyRecord>>): seq<DailyRecord>
  {
    if runs == [] then [] else Flatten(runs[..|runs| - 1]) + Last(runs)
  }

  /** How the runs grow when one more record arrives: it extends the current run or starts a new one. */
  lemma RunsSnoc(records: seq<DailyRecord>, r: DailyRecord)
    requires records != []
    ensures SameMonth(Last(records).date, r.date) ==>
      Runs(records + [r]) == Runs(records)[..|Runs(records)| - 1] + [CurrentRun(records) + [r]]
    ensures !SameMonth(Last(records).date, r.date) ==> Runs(records + [r]) == Runs(records) + [[r]]
  {
    assert (records + [r])[..|records|] == records;
  }

  /** The first record starts the first run, and nothing is written. */
  lemma FirstRecord(r: DailyRecord)
    ensures Runs([r]) == [[r]] && CurrentRun([r]) == [r] && Flushes([r]) == []
  {
    assert [r][..0] == [];
  }

  /** Within a month, one more record grows the current run and writes nothing. */
  lemma FlushesContinue(records: seq<DailyRecord>, r: DailyRecord)
    requires records != [] && SameMonth(Last(records).date, r.date)
    ensures Flushes(records + [r]) == Flushes(records)
    ensures CurrentRun(records + [r]) == CurrentRun(records) + [r]
  {
    RunsSnoc(records, r);
    var runs, runs' := Runs(records), Runs(records + [r]);
    assert |runs'| == |runs|;
    var before, after := Flushes(records), Flushes(records + [r]);
    forall i | 0 <= i < |after| ensures after[i] == before[i] {
      assert runs'[i] == runs[i];
    }
  }

  /** At a month change, the current run is closed out and the new run holds the record alone. */
  lemma FlushesClose(records: seq<DailyRecord>, r: DailyRecord)
    requires records != [] && !SameMonth(Last(records).date, r.date)
    ensures Flushes(records + [r]) == Flushes(records) + [Closed(CurrentRun(records))]
    ensures CurrentRun(records + [r]) == [r]
  {
    RunsSnoc(records, r);
    var runs, runs' := Runs(records), Runs(records + [r]);
    assert |runs'| == |runs| + 1;
    var before, after := Flushes(records), Flushes(records + [r]);
    var closed := Closed(CurrentRun(records));
    assert |after| == |before| + 1;
    forall i | 0 <= i < |after| ensures after[i] == (before + [closed])[i] {
      assert runs'[i] == runs[i];
      if i < |before| {
        assert after[i] == Closed(runs[i]) == before[i];
      } else {
        assert after[i] == Closed(runs[|runs| - 1]) == closed;
      }
    }
  }

  /** Concatenated, the runs give back the records. */
  lemma {:induction false} RunsFlatten(records: seq<DailyRecord>)
    ensures Flatten(Runs(records)) == records
    decreases |records|
  {
    if records != [] {
      var init, r := records[..|records| - 1], Last(records);
      assert records == init + [r];
      if init == [] {
        assert Runs(records) == [[r]];
        assert Flatten([[r]]) == Flatten([]) + [r];
      } else {
        RunsFlatten(init);
        RunsSnoc(init, r);
        var runs, runs' := Runs(init), Runs(records);
        var n := |runs|;
        assert Flatten(runs) == Flatten(runs[..n - 1]) + Last(runs);
        if SameMonth(Last(init).date, r.date) {
          assert runs' == runs[..n - 1] + [Last(runs) + [r]];
          assert runs'[..n - 1] == runs[..n - 1];
          assert Flatten(runs') == Flatten(runs[..n - 1]) + (Last(runs) + [r]);
          assert Flatten(runs[..n - 1]) + (Last(runs) + [r]) == Flatten(runs) + [r];
        } else {
          assert runs' == runs + [[r]];
          assert runs'[..n] == runs;
          assert Flatten(runs') == Flatten(runs) + [r];
        }
      }
    }
  }

  /** Every record of `run` is in the same month as the record after it. */
  ghost predicate WithinMonth(run: seq<DailyRecord>)
  {
    forall j :: 0 <= j < |run| - 1 ==> SameMonth(run[j].date, run[j + 1].date)
  }

  /** A run stays within its month when a record of the month of its last record is appended. */
  lemma WithinMonthSnoc(run: seq<DailyRecord>, r: DailyRecord)
    requires run != [] && WithinMonth(run)
    requires SameMonth(Last(run).date, r.date)
    ensures WithinMonth(run + [r])
  {
    var run' := run + [r];
    forall j | 0 <= j < |run'| - 1 ensures SameMonth(run'[j].date, run'[j + 1].date) {
      if j == |run| - 1 {
        assert run'[j] == Last(run) && run'[j + 1] == r;
      } else {
        assert run'[j] == run[j] && run'[j + 1] == run[j + 1];
      }
    }
  }

  /** Consecutive records of a run are in the same month. */
  lemma {:induction false} RunsWithinMonth(records: seq<DailyRecord>)
    ensures forall i :: 0 <= i < |Runs(records)| ==> WithinMonth(Runs(records)[i])
    decreases |records|
  {
    if records != [] {
      var init, r := records[..|records| - 1], Last(records);
      assert records == init + [r];
      if init == [] {
        FirstRecord(r);
      } else {
        RunsWithinMonth(init);
        RunsSnoc(init, r);
        var runs, runs' := Runs(init), Runs(records);
        var n := |runs|;
        if SameMonth(Last(init).date, r.date) {
          WithinMonthSnoc(runs[n - 1], r);
          assert runs' == runs[..n - 1] + [runs[n - 1] + [r]];
          forall i | 0 <= i < |runs'| ensures WithinMonth(runs'[i]) {
            if i < n - 1 {
              assert runs'[i] == runs[i];
            }
          }
        } else {
          assert runs' == runs + [[r]];
          forall i | 0 <= i < |runs'| ensures WithinMonth(runs'[i]) {
            if i < n {
              assert runs'[i] == runs[i];
            }
          }
        }
      }
    }
  }

  /** The last record of a run and the first record of the next run are in different months. */
  lemma {:induction false} RunsBreakAtMonthChange(records: seq<DailyRecord>)
    ensures forall i :: 0 <= i < |Runs(records)| - 1 ==>
      !SameMonth(Last(Runs(records)[i]).date, Runs(records)[i + 1][0].date)
    decreases |records|
  {
    if |records| > 1 {
      var init, r := records[..|records| - 1], Last(records);
      assert records == init + [r];
      RunsBreakAtMonthChange(init);
      RunsSnoc(init, r);
      var runs, runs' := Runs(init), Runs(records);
      var n := |runs|;
      if SameMonth(Last(init).date, r.date) {
        forall i | 0 <= i < |runs'| - 1
          ensures !SameMonth(Last(runs'[i]).date, runs'[i + 1][0].date)
        {
          assert runs'[i] == runs[i];
          if i + 1 == n - 1 {
            assert runs'[i + 1][0] == runs[i + 1][0];
          } else {
            assert runs'[i + 1] == runs[i + 1];
          }
        }
      } else {
        forall i | 0 <= i < |runs'| - 1
          ensures !SameMonth(Last(runs'[i]).date, runs'[i + 1][0].date)
        {
          assert runs'[i] == runs[i];
          if i == n - 1 {
            assert Last(runs'[i]) == Last(init);
          } else {
            assert runs'[i + 1] == runs[i + 1];
          }
        }
      }
    }
  }

  /** `records[i]` is the last record of its month's run: the next record is in another month. */
  predicate MonthEndsAt(records: seq<DailyRecord>, i: int)
  {
    0 <= i < |records| - 1 && !SameMonth(records[i].date, records[i + 1].date)
  }

  /**
   * The months written are exactly those of records followed by a record of another month; in
   * particular the month of the last record is written only if that month also ended earlier.
   */
  lemma {:induction false} FlushedMonths(records: seq<DailyRecord>)
    ensures forall k :: k in WrittenKeys(Flushes(records)) <==>
      exists i :: MonthEndsAt(records, i) && MonthKey(records[i].date) == k
    decreases |records|
  {
    if |records| > 1 {
      var init, r := records[..|records| - 1], Last(records);
      assert records == init + [r];
      FlushedMonths(init);
      forall i | 0 <= i < |init| ensures MonthEndsAt(records, i) <==> (MonthEndsAt(init, i) || (i == |init| - 1 && !SameMonth(Last(init).date, r.date))) {
        assert records[i] == init[i];
        if i < |init| - 1 { assert records[i + 1] == init[i + 1]; }
      }
      if SameMonth(Last(init).date, r.date) {
        FlushesContinue(init, r);
      } else {
        FlushesClose(init, r);
        assert WrittenKeys(Flushes(records)) == WrittenKeys(Flushes(init)) + {MonthKey(Last(init).date)} by {
          assert Flushes(records) == Flushes(init) + [Closed(CurrentRun(init))];
        }
        assert MonthEndsAt(records, |init| - 1) && records[|init| - 1] == Last(init);
      }
    } else if |records| == 1 {
      assert Flushes(records) == [];
    }
  }

  /** A single month's records write nothing at all. */
  lemma SingleMonthFlushesNothing(records: seq<DailyRecord>)
    requires WithinMonth(records)
    ensures Flushes(records) == []
  {
    FlushedMonths(records);
    if Flushes(records) != [] {
      assert MonthKey(Last(Runs(records)[0]).date) in WrittenKeys(Flushes(records)) by {
        assert Flushes(records)[0] == Closed(Runs(records)[0]);
      }
    }
  }

  /** The variables of the aggregation loop: the dictionary, the two sums and the remembered year and month. */
  datatype Progress = Progress(d: Dict, numerator: real, denominator: int, lastYear: string, lastMonth: string)

  /**
   * One pass of the loop body of `read_stock_data` over the loop's variables: a record of the
   * remembered month is added to the sums; a record of another month first stores the average of the
   * sums under the remembered "YYYY/MM" and restarts the sums from itself. Either way its year and
   * month are remembered.
   */
  function Step(p: Progress, r: DailyRecord): Progress
  {
    if InMonth(r.date, p.lastYear, p.lastMonth) then
      Progress(p.d, p.numerator + Weighted(r), p.denominator + r.volume, Year(r.date), Month(r.date))
    else
      var average := if p.denominator != 0 then p.numerator / (p.denominator as real) else 0.0;
      Progress(p.d.Put(p.lastYear + "/" + p.lastMonth, average), Weighted(r), r.volume, Year(r.date), Month(r.date))
  }

  /**
   * The loop's variables after the loop body has run on the first `i` records, starting from empty
   * sums and the year and month of the first record.
   */
  function Scan(records: seq<DailyRecord>, i: nat, start: Dict): Progress
    requires 0 < |records| && i <= |records|
  {
    if i == 0 then Progress(start, 0.0, 0, Year(records[0].date), Month(records[0].date))
    else Step(Scan(records, i - 1, start), records[i - 1])
  }

  /** After any number of records the loop's variables are what the runs prescribe. */
  lemma {:induction false} ScanSpec(records: seq<DailyRecord>, i: nat, start: Dict)
    requires 0 < i <= |records| && start.Valid()
    ensures Prescribed(records, i, start, Scan(records, i, start))
  {
    if i == 1 {
      FirstStep(records, start, Scan(records, 0, start));
    } else {
      ScanSpec(records, i - 1, start);
      NextStep(records, i - 1, start, Scan(records, i - 1, start));
    }
  }

  /**
   * `p` holds what the runs prescribe after `i` records: the dictionary holds the writes of the runs
   * closed so far, the sums are those of the run in progress, and the remembered year and month are
   * those of the last record seen.
   */
  ghost predicate Prescribed(records: seq<DailyRecord>, i: nat, start: Dict, p: Progress)
    requires 0 < i <= |records| && start.Valid()
  {
    && p.d == PutAll(start, Flushes(records[..i]))
    && p.numerator == Numerator(CurrentRun(records[..i]))
    && p.denominator == Denominator(CurrentRun(records[..i]))
    && p.lastYear == Year(records[i - 1].date)
    && p.lastMonth == Month(records[i - 1].date)
  }

  /** The loop body on the first record, from the initial variables, gives what one record prescribes. */
  lemma FirstStep(records: seq<DailyRecord>, start: Dict, p: Progress)
    requires 0 < |records| && start.Valid()
    requires p == Progress(start, 0.0, 0, Year(records[0].date), Month(records[0].date))
    ensures Prescribed(records, 1, start, Step(p, records[0]))
  {
    var r := records[0];
    assert records[..1] == [r];
    FirstRecord(r);
    SumsSnoc([], r);
    assert [] + [r] == [r];
  }

  /** The loop body on record `i` takes what `i` records prescribe to what `i + 1` records prescribe. */
  lemma NextStep(records: seq<DailyRecord>, i: nat, start: Dict, p: Progress)
    requires 0 < i < |records| && start.Valid()
    requires Prescribed(records, i, start, p)
    ensures Prescribed(records, i + 1, start, Step(p, records[i]))
  {
    if SameMonth(records[i - 1].date, records[i].date) {
      ContinueMonth(records, i, start);
    } else {
      CloseMonth(records, i, start);
    }
  }

  /** After the whole input, the loop's dictionary holds the writes of all closed runs. */
  lemma ScanAll(records: seq<DailyRecord>, start: Dict)
    requires 0 < |records| && start.Valid()
    ensures Scan(records, |records|, start).d == PutAll(start, Flushes(records))
  {
    ScanSpec(records, |records|, start);
    assert records[..|records|] == records;
  }

  /** A record of the same month as the one before it is added to the run in progress, and nothing is written. */
  lemma ContinueMonth(records: seq<DailyRecord>, i: nat, start: Dict)
    requires 0 < i < |records| && start.Valid()
    requires SameMonth(records[i - 1].date, records[i].date)
    ensures PutAll(start, Flushes(records[..i + 1])) == PutAll(start, Flushes(records[..i]))
    ensures Numerator(CurrentRun(records[..i + 1])) == Numerator(CurrentRun(records[..i])) + Weighted(records[i])
    ensures Denominator(CurrentRun(records[..i + 1])) == Denominator(CurrentRun(records[..i])) + records[i].volume
  {
    var r := records[i];
    var seen := records[..i];
    assert records[..i + 1] == seen + [r];
    assert Last(seen) == records[i - 1];
    FlushesContinue(seen, r);
    SumsSnoc(CurrentRun(seen), r);
  }

  /**
   * A record of another month than the one before it closes out the run in progress, whose average
   * is written under its "YYYY/MM", and starts a run of its own.
   */
  lemma CloseMonth(records: seq<DailyRecord>, i: nat, start: Dict)
    requires 0 < i < |records| && start.Valid()
    requires !SameMonth(records[i - 1].date, records[i].date)
    ensures PutAll(start, Flushes(records[..i + 1])) ==
      PutAll(start, Flushes(records[..i])).Put(MonthKey(records[i - 1].date), Average(CurrentRun(records[..i])))
    ensures Numerator(CurrentRun(records[..i + 1])) == Weighted(records[i])
    ensures Denominator(CurrentRun(records[..i + 1])) == records[i].volume
  {
    var r := records[i];
    var seen := records[..i];
    assert records[..i + 1] == seen + [r];
    assert Last(seen) == records[i - 1];
    FlushesClose(seen, r);
    var run := CurrentRun(seen);
    PutAllSnoc(start, Flushes(seen), Closed(run));
    SumsSnoc([], r);
    assert [] + [r] == [r];
  }

  /**
   * The value stored under a month key is the average of the last closed-out run of that month: a
   * later run of the same month overwrites an earlier one, and entries of other months stay.
   */
  lemma StoredAverage(records: seq<DailyRecord>, start: Dict, k: string)
    requires start.Valid()
    ensures k in WrittenKeys(Flushes(records)) ==>
      k in PutAll(start, Flushes(records)).values &&
      exists j :: 0 <= j < |Runs(records)| - 1 && MonthKey(Last(Runs(records)[j]).date) == k &&
        PutAll(start, Flushes(records)).values[k] == Average(Runs(records)[j]) &&
        forall j' :: j < j' < |Runs(records)| - 1 ==> MonthKey(Last(Runs(records)[j']).date) != k
    ensures k !in WrittenKeys(Flushes(records)) ==>
      (k in PutAll(start, Flushes(records)).values <==> k in start.values) &&
      (k in start.values ==> PutAll(start, Flushes(records)).values[k] == start.values[k])
  {
    var writes, runs := Flushes(records), Runs(records);
    PutAllValue(start, writes, k);
    if k in WrittenKeys(writes) {
      var j :| LastWrite(writes, k, j) && PutAll(start, writes).values[k] == writes[j].1;
      assert writes[j] == Closed(runs[j]);
      forall j' | j < j' < |runs| - 1 ensures MonthKey(Last(runs[j']).date) != k {
        assert writes[j'] == Closed(runs[j']);
      }
    }
  }
}
