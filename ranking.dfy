/** `sorted(..., key=..., reverse=...)[0:n]` over the items of the monthly-average dictionary. */
module Ranking {
  import opened MonthDict

  datatype Option<T> = None | Some(value: T)

  function Min(a: int, b: int): int { if a <= b then a else b }

  /** `a` may precede `b`: by average, highest first when `descending`, lowest first otherwise. */
  predicate InOrder(a: Entry, b: Entry, descending: bool)
  {
    if descending then a.1 >= b.1 else a.1 <= b.1
  }

  ghost predicate Sorted(s: seq<Entry>, descending: bool)
  {
    forall i, j :: 0 <= i < j < |s| ==> InOrder(s[i], s[j], descending)
  }

  /** In a sequence without repetitions every value occurs at most once. */
  lemma {:induction false} DistinctOccursOnce<T>(s: seq<T>, x: T)
    requires Distinct(s)
    ensures multiset(s)[x] <= 1
  {
    if s != [] {
      var init, last := s[..|s| - 1], s[|s| - 1];
      assert s == init + [last];
      assert Distinct(init) by {
        forall i, j | 0 <= i < j < |init| ensures init[i] != init[j] {
          assert init[i] == s[i] && init[j] == s[j];
        }
      }
      DistinctOccursOnce(init, x);
      if x == last {
        forall i | 0 <= i < |init| ensures init[i] != x {
          assert init[i] == s[i];
        }
      }
    }
  }

  /** A value found at two positions occurs at least twice. */
  lemma OccursTwice<T>(s: seq<T>, i: int, j: int)
    requires 0 <= i < j < |s|
    ensures s[i] == s[j] ==> multiset(s)[s[i]] >= 2
  {
    assert s == s[..j] + s[j..];
    assert s[..j][i] == s[i] && s[j..][0] == s[j];
  }

  /** Drawing from a sequence without repetitions gives a sequence without repetitions. */
  lemma SubmultisetDistinct<T>(a: seq<T>, b: seq<T>)
    requires multiset(a) <= multiset(b) && Distinct(b)
    ensures Distinct(a)
  {
    forall i, j | 0 <= i < j < |a| ensures a[i] != a[j] {
      OccursTwice(a, i, j);
      DistinctOccursOnce(b, a[i]);
    }
  }

  /**
   * Inserts `x` in front of the first entry it may precede. Entries of equal average keep their
   * relative order when `x` came first in the input, as in Python's stable sort.
   */
  function Insert(x: Entry, s: seq<Entry>, descending: bool): (r: seq<Entry>)
    requires Sorted(s, descending)
    ensures Sorted(r, descending)
    ensures multiset(r) == multiset(s) + multiset{x}
  {
    if s == [] || InOrder(x, s[0], descending) then
      PrependSorted(x, s, descending);
      [x] + s
    else
      var t := Insert(x, s[1..], descending);
      assert s == [s[0]] + s[1..];
      PrependSorted(s[0], t, descending);
      [s[0]] + t
  }

  /** A sorted sequence stays sorted with `h` in front when `h` may precede its first entry. */
  lemma PrependSorted(h: Entry, t: seq<Entry>, descending: bool)
    requires Sorted(t, descending)
    requires t == [] || InOrder(h, t[0], descending)
    ensures Sorted([h] + t, descending)
  {
    var s := [h] + t;
    forall i, j | 0 <= i < j < |s| ensures InOrder(s[i], s[j], descending) {
      if i == 0 {
        assert s[j] == t[j - 1];
        assert InOrder(t[0], t[j - 1], descending) || j == 1;
      } else {
        assert s[i] == t[i - 1] && s[j] == t[j - 1];
      }
    }
  }

  /** `sorted(items, key=average, reverse=descending)`: ordered by average and a permutation of `items`. */
  function Sort(items: seq<Entry>, descending: bool): (r: seq<Entry>)
    ensures Sorted(r, descending)
    ensures multiset(r) == multiset(items)
  {
    if items == [] then []
    else
      assert items == [items[0]] + items[1..];
      Insert(items[0], Sort(items[1..], descending), descending)
  }

  /** The entries of `s` whose rank is `v`, in their order in `s`. */
  function OfRank(s: seq<Entry>, v: real): (r: seq<Entry>)
    ensures |r| <= |s| && forall i :: 0 <= i < |r| ==> r[i].1 == v
  {
    if s == [] then [] else (if s[0].1 == v then [s[0]] else []) + OfRank(s[1..], v)
  }

  /** Selecting one rank distributes over concatenation. */
  lemma {:induction false} OfRankAppend(a: seq<Entry>, b: seq<Entry>, v: real)
    ensures OfRank(a + b, v) == OfRank(a, v) + OfRank(b, v)
  {
    if a != [] {
      assert (a + b)[0] == a[0] && (a + b)[1..] == a[1..] + b;
      OfRankAppend(a[1..], b, v);
    } else {
      assert a + b == b;
    }
  }

  /** The entries of one rank in a prefix are a prefix of the entries of that rank in the whole. */
  lemma PrefixOfRank(s: seq<Entry>, m: nat, v: real)
    requires m <= |s|
    ensures OfRank(s[..m], v) <= OfRank(s, v)
  {
    assert s == s[..m] + s[m..];
    OfRankAppend(s[..m], s[m..], v);
  }

  /** Insertion puts `x` in front of every entry of equal rank and keeps their order. */
  lemma {:induction false} InsertStable(x: Entry, s: seq<Entry>, v: real, descending: bool)
    requires Sorted(s, descending)
    ensures OfRank(Insert(x, s, descending), v) == (if x.1 == v then [x] else []) + OfRank(s, v)
  {
    if s == [] || InOrder(x, s[0], descending) {
      assert Insert(x, s, descending) == [x] + s;
      assert ([x] + s)[0] == x && ([x] + s)[1..] == s;
    } else {
      var t := Insert(x, s[1..], descending);
      assert Insert(x, s, descending) == [s[0]] + t;
      InsertStable(x, s[1..], v, descending);
      var head, front := if s[0].1 == v then [s[0]] else [], if x.1 == v then [x] else [];
      assert ([s[0]] + t)[0] == s[0] && ([s[0]] + t)[1..] == t;
      assert OfRank([s[0]] + t, v) == head + (front + OfRank(s[1..], v));
      assert OfRank(s, v) == head + OfRank(s[1..], v);
      assert head == [] || front == [] by {
        assert s[0].1 != x.1;
      }
    }
  }

  /** `sorted` is stable: for every rank, the entries of that rank keep their input order. */
  lemma {:induction false} SortStable(items: seq<Entry>, v: real, descending: bool)
    ensures OfRank(Sort(items, descending), v) == OfRank(items, v)
  {
    if items != [] {
      SortStable(items[1..], v, descending);
      InsertStable(items[0], Sort(items[1..], descending), v, descending);
    }
  }

  /**
   * The first `n` entries of the ranking: `min(n, |items|)` entries drawn from `items`, in order,
   * and every entry left out ranks no higher than any entry kept.
   */
  function Top(items: seq<Entry>, n: nat, descending: bool): (r: seq<Entry>)
    ensures |r| == Min(n, |items|)
    ensures Sorted(r, descending)
    ensures multiset(r) <= multiset(items)
    ensures forall x, y :: x in r && y in multiset(items) - multiset(r) ==> InOrder(x, y, descending)
    ensures forall v :: OfRank(r, v) <= OfRank(items, v)
  {
    var sorted := Sort(items, descending);
    var m := Min(n, |items|);
    assert |sorted| == |multiset(sorted)| == |items|;
    SplitSorted(sorted, m, descending);
    forall v ensures OfRank(sorted[..m], v) <= OfRank(items, v) {
      SortStable(items, v, descending);
      PrefixOfRank(sorted, m, v);
    }
    sorted[..m]
  }

  /** Cutting a sorted sequence in two: everything before the cut may precede everything after it. */
  lemma SplitSorted(s: seq<Entry>, m: nat, descending: bool)
    requires Sorted(s, descending) && m <= |s|
    ensures multiset(s) - multiset(s[..m]) == multiset(s[m..])
    ensures forall x, y :: x in s[..m] && y in multiset(s) - multiset(s[..m]) ==> InOrder(x, y, descending)
  {
    assert s == s[..m] + s[m..];
    forall x, y | x in s[..m] && y in multiset(s) - multiset(s[..m]) ensures InOrder(x, y, descending) {
      var i :| 0 <= i < m && s[i] == x;
      assert y in s[m..];
      var j :| 0 <= j < |s| - m && s[m..][j] == y;
      assert s[m + j] == y;
    }
  }

  /** The item key `itemgetter(2)` as written extracts from a dictionary key: its third character. */
  function AsWrittenRank(key: string): real
    requires |key| > 2
  {
    (key[2] as int) as real
  }

  /**
   * `sorted(monthly_averages, key=itemgetter(2), reverse=descending)[0:6]` as written: iterating the
   * dictionary yields its keys, so the months are ranked by the third character of their key and the
   * report lists bare keys; a key shorter than three characters raises IndexError (None here).
   */
  function AsWrittenRanking(d: Dict, descending: bool): (r: Option<seq<string>>)
    requires d.Valid()
    ensures r.Some? <==> forall i :: 0 <= i < |d.keys| ==> |d.keys[i]| > 2
    ensures r.Some? ==> |r.value| == Min(6, |d.keys|)
    ensures r.Some? ==> Distinct(r.value) && forall i :: 0 <= i < |r.value| ==> r.value[i] in d.keys
    ensures r.Some? ==>
      (forall i :: 0 <= i < |r.value| ==> |r.value[i]| > 2) && Sorted(RankedByThirdChar(r.value), descending)
    ensures r.Some? ==> forall i, j :: 0 <= i < |d.keys| && d.keys[i] !in r.value && 0 <= j < |r.value| ==>
      if descending then AsWrittenRank(d.keys[i]) <= AsWrittenRank(r.value[j])
      else AsWrittenRank(d.keys[i]) >= AsWrittenRank(r.value[j])
    ensures r.Some? ==> forall v :: OfRank(RankedByThirdChar(r.value), v) <= OfRank(RankedByThirdChar(d.keys), v)
  {
    if exists i :: 0 <= i < |d.keys| && |d.keys[i]| <= 2 then None
    else
      var top := Top(RankedByThirdChar(d.keys), 6, descending);
      RankedTop(d.keys, top);
      OmittedRankNoHigher(d.keys, top, descending);
      Some(KeysOf(top))
  }

  /** Each key paired with its third character as its rank. */
  function RankedByThirdChar(keys: seq<string>): (r: seq<Entry>)
    requires forall i :: 0 <= i < |keys| ==> |keys[i]| > 2
    ensures |r| == |keys|
    ensures forall i :: 0 <= i < |r| ==> r[i] == (keys[i], AsWrittenRank(keys[i]))
  {
    if keys == [] then [] else [(keys[0], AsWrittenRank(keys[0]))] + RankedByThirdChar(keys[1..])
  }

  /** The keys of a list of entries. */
  function KeysOf(entries: seq<Entry>): (r: seq<string>)
    ensures |r| == |entries|
    ensures forall i :: 0 <= i < |r| ==> r[i] == entries[i].0
  {
    if entries == [] then [] else [entries[0].0] + KeysOf(entries[1..])
  }

  /** Every entry drawn from the ranking of `keys` is one of the keys paired with its own rank. */
  lemma RankedEntries(keys: seq<string>, top: seq<Entry>)
    requires forall i :: 0 <= i < |keys| ==> |keys[i]| > 2
    requires multiset(top) <= multiset(RankedByThirdChar(keys))
    ensures forall i :: 0 <= i < |top| ==>
      top[i].0 in keys && |top[i].0| > 2 && top[i] == (top[i].0, AsWrittenRank(top[i].0))
  {
    var ranked := RankedByThirdChar(keys);
    forall i | 0 <= i < |top|
      ensures top[i].0 in keys && |top[i].0| > 2 && top[i] == (top[i].0, AsWrittenRank(top[i].0))
    {
      assert top[i] in multiset(top);
      var m :| 0 <= m < |ranked| && ranked[m] == top[i];
    }
  }

  /**
   * What a ranking of distinct keys by their third character lists: distinct keys drawn from `keys`,
   * each paired with its own rank, so that ranking the listed keys again gives the ranking back.
   */
  lemma RankedTop(keys: seq<string>, top: seq<Entry>)
    requires Distinct(keys) && forall i :: 0 <= i < |keys| ==> |keys[i]| > 2
    requires multiset(top) <= multiset(RankedByThirdChar(keys))
    ensures forall i :: 0 <= i < |top| ==> top[i].0 in keys && |top[i].0| > 2
    ensures Distinct(KeysOf(top))
    ensures RankedByThirdChar(KeysOf(top)) == top
  {
    RankedEntries(keys, top);
    var ranked := RankedByThirdChar(keys);
    assert Distinct(ranked) by {
      forall i, j | 0 <= i < j < |ranked| ensures ranked[i] != ranked[j] {
        assert ranked[i].0 == keys[i] && ranked[j].0 == keys[j];
      }
    }
    SubmultisetDistinct(top, ranked);
    var listed := KeysOf(top);
    forall i, j | 0 <= i < j < |listed| ensures listed[i] != listed[j] {
      assert top[i] != top[j];
    }
    var again := RankedByThirdChar(listed);
    forall i | 0 <= i < |top| ensures again[i] == top[i] {
      assert listed[i] == top[i].0;
    }
  }

  /** A key left out of a top selection of the ranking of `keys` ranks no higher than any key listed. */
  lemma OmittedRankNoHigher(keys: seq<string>, top: seq<Entry>, descending: bool)
    requires forall i :: 0 <= i < |keys| ==> |keys[i]| > 2
    requires multiset(top) <= multiset(RankedByThirdChar(keys))
    requires forall x, y :: x in top && y in multiset(RankedByThirdChar(keys)) - multiset(top) ==> InOrder(x, y, descending)
    ensures forall i :: 0 <= i < |top| ==> |KeysOf(top)[i]| > 2
    ensures forall i, j :: 0 <= i < |keys| && keys[i] !in KeysOf(top) && 0 <= j < |KeysOf(top)| ==>
      if descending then AsWrittenRank(keys[i]) <= AsWrittenRank(KeysOf(top)[j])
      else AsWrittenRank(keys[i]) >= AsWrittenRank(KeysOf(top)[j])
  {
    RankedEntries(keys, top);
    var ranked, listed := RankedByThirdChar(keys), KeysOf(top);
    forall i, j | 0 <= i < |keys| && keys[i] !in listed && 0 <= j < |listed|
      ensures if descending then AsWrittenRank(keys[i]) <= AsWrittenRank(listed[j])
              else AsWrittenRank(keys[i]) >= AsWrittenRank(listed[j])
    {
      var y := ranked[i];
      assert y in multiset(ranked) - multiset(top);
      assert InOrder(top[j], y, descending);
    }
  }

  /** Two months of the GOOG fixture. */
  const GoogSample := Dict(["2004/09", "2007/12"], map["2004/09" := 116.38, "2007/12" := 693.76])

  /** Ranking two entries: the second goes first only if it ranks strictly higher. */
  lemma SortTwo(x: Entry, y: Entry, descending: bool)
    ensures Sort([x, y], descending) == if InOrder(x, y, descending) then [x, y] else [y, x]
  {
    assert [x, y][0] == x && [x, y][1..] == [y];
    SortOne(y, descending);
    InsertIntoOne(x, y, descending);
  }

  /** A single entry is already sorted. */
  lemma SortOne(y: Entry, descending: bool)
    ensures Sort([y], descending) == [y]
  {
    assert [y][0] == y && [y][1..] == [];
  }

  /** Inserting into a one-entry list puts the new entry second only if it ranks strictly lower. */
  lemma InsertIntoOne(x: Entry, y: Entry, descending: bool)
    ensures Insert(x, [y], descending) == if InOrder(x, y, descending) then [x, y] else [y, x]
  {
    assert [y][0] == y && [y][1..] == [];
  }

  /**
   * As written, the best-months report of the sample lists bare keys with the worst month first,
   * because both keys have the same third character.
   */
  lemma AsWrittenBestMonthsOfSample()
    ensures GoogSample.Valid()
    ensures AsWrittenRanking(GoogSample, true) == Some(["2004/09", "2007/12"])
  {
    var a: string, b: string := "2004/09", "2007/12";
    assert GoogSample.Valid();
    assert AsWrittenRank(a) == AsWrittenRank(b) by {
      assert a[2] == b[2];
    }
    var x: Entry, y: Entry := (a, AsWrittenRank(a)), (b, AsWrittenRank(b));
    assert RankedByThirdChar([a, b]) == [x, y] by {
      assert [a, b][1..] == [b];
      assert |[b][1..]| == 0;
    }
    SortTwo(x, y, true);
    assert Top([x, y], 6, true) == [x, y];
    assert KeysOf([x, y]) == [a, b] by {
      assert [x, y][1..] == [y];
      assert |[y][1..]| == 0;
    }
  }

  /** By average, the best-months report of the sample puts 2007/12 first, with its average. */
  lemma BestMonthsOfSample()
    ensures GoogSample.Valid()
    ensures Top(GoogSample.Items(), 6, true) == [("2007/12", 693.76), ("2004/09", 116.38)]
  {
    var a, b := "2004/09", "2007/12";
    assert GoogSample.Valid();
    var items := GoogSample.Items();
    assert items == [(a, 116.38), (b, 693.76)];
    SortTwo((a, 116.38), (b, 693.76), true);
  }
}
