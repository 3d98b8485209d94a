/** The dictionary `monthly_averages`: a Python dict from month keys to averages. */
module MonthDict {

  /** One (year/month, average) item of the dictionary. */
  type Entry = (string, real)

  /** No element occurs twice. */
  ghost predicate Distinct<T>(s: seq<T>)
  {
    forall i, j :: 0 <= i < j < |s| ==> s[i] != s[j]
  }

  /** A Python dict remembers the order in which its keys were first inserted; `keys` holds that order. */
  datatype Dict = Dict(keys: seq<string>, values: map<string, real>)
  {
    /** Every key is listed exactly once, and only keys of the map are listed. */
    ghost predicate Valid()
    {
      && Distinct(keys)
      && (forall k :: k in values <==> k in keys)
    }

    /** `d[key] = value`: a new key goes to the end of the order, an existing one keeps its place. */
    function Put(key: string, value: real): (d: Dict)
      ensures d.values == values[key := value]
    {
      if key in values then Dict(keys, values[key := value])
      else Dict(keys + [key], values[key := value])
    }

    /** `d.items()` in iteration order, which is the insertion order of the keys. */
    function Items(): (items: seq<Entry>)
      requires Valid()
      ensures |items| == |keys| == |values|
      ensures forall e :: e in items <==> e.0 in values && values[e.0] == e.1
      ensures forall i, j :: 0 <= i < j < |items| ==> items[i].0 != items[j].0
      ensures forall i :: 0 <= i < |items| ==> items[i].0 == keys[i]
    {
      DistinctCount(keys, values.Keys);
      var items := seq(|keys|, i requires 0 <= i < |keys| && keys[i] in values => (keys[i], values[keys[i]]));
      assert forall e: Entry :: e.0 in values && values[e.0] == e.1 ==> e in items by {
        forall e: Entry | e.0 in values && values[e.0] == e.1 ensures e in items {
          var i :| 0 <= i < |keys| && keys[i] == e.0;
          assert items[i] == e;
        }
      }
      items
    }
  }

  /** Assigning a key keeps every key listed exactly once. */
  lemma PutValid(d: Dict, key: string, value: real)
    requires d.Valid()
    ensures d.Put(key, value).Valid()
  {
  }

  /** The empty dictionary `{}`: well formed and without items. */
  function Empty(): (d: Dict)
    ensures d.Valid() && d.Items() == []
  {
    Dict([], map[])
  }

  /** A list without repetitions has as many elements as the set of its elements. */
  lemma {:induction false} DistinctCount(s: seq<string>, elems: set<string>)
    requires Distinct(s)
    requires forall k :: k in elems <==> k in s
    ensures |elems| == |s|
  {
    if s != [] {
      var last := s[|s| - 1];
      var init := s[..|s| - 1];
      assert forall k :: k in elems - {last} <==> k in init by {
        forall k ensures k in elems - {last} <==> k in init {
          if k in init {
            var i :| 0 <= i < |init| && init[i] == k;
            assert s[i] == k;
          }
          if k in s && k != last {
            var i :| 0 <= i < |s| && s[i] == k;
            assert i < |s| - 1 && init[i] == k;
          }
        }
      }
      DistinctCount(init, elems - {last});
    }
  }

  /** The keys of a list of writes. */
  function WrittenKeys(writes: seq<Entry>): set<string>
  {
    set e | e in writes :: e.0
  }

  /** The dictionary after the assignments `d[k] = v` of `writes`, in order. */
  function PutAll(d: Dict, writes: seq<Entry>): (r: Dict)
    requires d.Valid()
    ensures r.Valid()
    decreases |writes|
  {
    if writes == [] then d
    else
      var w := writes[|writes| - 1];
      var before := PutAll(d, writes[..|writes| - 1]);
      PutValid(before, w.0, w.1);
      before.Put(w.0, w.1)
  }

  /** The keys after the writes: those the dictionary had, and every key written. */
  lemma {:induction false} PutAllKeys(d: Dict, writes: seq<Entry>)
    requires d.Valid()
    ensures PutAll(d, writes).values.Keys == d.values.Keys + WrittenKeys(writes)
    decreases |writes|
  {
    if writes != [] {
      var w := writes[|writes| - 1];
      var init := writes[..|writes| - 1];
      assert WrittenKeys(writes) == WrittenKeys(init) + {w.0} by {
        assert writes == init + [w];
      }
      PutAllKeys(d, init);
    }
  }

  /** Writes never reorder the dictionary: the keys it had come first, in their old order. */
  lemma {:induction false} PutAllKeepsOrder(d: Dict, writes: seq<Entry>)
    requires d.Valid()
    ensures |d.keys| <= |PutAll(d, writes).keys| && PutAll(d, writes).keys[..|d.keys|] == d.keys
    decreases |writes|
  {
    if writes != [] {
      var w := writes[|writes| - 1];
      var before := PutAll(d, writes[..|writes| - 1]);
      PutAllKeepsOrder(d, writes[..|writes| - 1]);
      var after := before.Put(w.0, w.1);
      assert after.keys == before.keys || after.keys == before.keys + [w.0];
      assert after.keys[..|before.keys|] == before.keys;
    }
  }

  /** Writing one more entry is one more `Put`. */
  lemma PutAllSnoc(d: Dict, writes: seq<Entry>, w: Entry)
    requires d.Valid()
    ensures PutAll(d, writes + [w]) == PutAll(d, writes).Put(w.0, w.1)
  {
    assert (writes + [w])[..|writes|] == writes;
  }

  /** A key that is never written keeps its value; a written key holds the value of its last write. */
  lemma {:induction false} PutAllValue(d: Dict, writes: seq<Entry>, k: string)
    requires d.Valid()
    ensures k !in WrittenKeys(writes) ==>
      (k in PutAll(d, writes).values <==> k in d.values) &&
      (k in d.values ==> PutAll(d, writes).values[k] == d.values[k])
    ensures k in WrittenKeys(writes) ==>
      k in PutAll(d, writes).values &&
      exists j :: LastWrite(writes, k, j) && PutAll(d, writes).values[k] == writes[j].1
    decreases |writes|
  {
    if writes != [] {
      var w := writes[|writes| - 1];
      var init := writes[..|writes| - 1];
      assert writes == init + [w];
      PutAllValue(d, init, k);
      PutAllKeys(d, init);
      assert WrittenKeys(writes) == WrittenKeys(init) + {w.0};
      if w.0 == k {
        assert LastWrite(writes, k, |writes| - 1);
      } else if k in WrittenKeys(writes) {
        var j :| LastWrite(init, k, j) && PutAll(d, init).values[k] == init[j].1;
        assert LastWrite(writes, k, j);
      }
    }
  }

  /** `writes[j]` is the last write of key `k`. */
  ghost predicate LastWrite(writes: seq<Entry>, k: string, j: int)
  {
    0 <= j < |writes| && writes[j].0 == k && forall j' :: j < j' < |writes| ==> writes[j'].0 != k
  }
}
